/**
 The file-backed token store. Every change reads the whole file, edits the map and writes the whole
 file back, under one mutex; the proof is that no interleaving of such tasks loses a change.
 */
module TokenStore {
  import opened Wrappers

  type Provider = string

  datatype Token = Token(accessToken: string, refreshToken: Option<string>, expiresAt: Option<int>, scope: Option<string>)

  type Tokens = map<Provider, Token>

  /** What is on disk: nothing yet, something that does not parse, or a map. */
  datatype File = Missing | Unreadable | Holds(tokens: Tokens)

  datatype Change = Put(provider: Provider, token: Token) | Remove(provider: Provider)

  /** A missing file and one that does not parse both load as the empty map. */
  function Load(file: File): Tokens
  {
    if file.Holds? then file.tokens else map[]
  }

  function Edit(m: Tokens, change: Change): Tokens
  {
    match change
    case Put(p, token) => m[p := token]
    case Remove(p) => m - {p}
  }

  function Found(file: File, p: Provider): Option<Token>
  {
    if p in Load(file) then Some(Load(file)[p]) else None
  }

  /** A provider's token is found exactly when the file holds a map that has it. */
  lemma FoundIff(file: File, p: Provider, token: Token)
    ensures Found(file, p) == Some(token) <==> file.Holds? && p in file.tokens && file.tokens[p] == token
    ensures Found(Missing, p) == None && Found(Unreadable, p) == None
  {
  }

  /** What a caller sees of a change: its own token is there or gone, every other provider's is as it was. */
  ghost predicate Effected(before: File, after: File, change: Change)
  {
    && after.Holds?
    && Found(after, change.provider) == (if change.Put? then Some(change.token) else None)
    && forall p | p != change.provider :: Found(after, p) == Found(before, p)
  }

  /** That determines the file. */
  lemma EffectedIff(before: File, after: File, change: Change)
    ensures Effected(before, after, change) <==> after == Holds(Edit(Load(before), change))
  {
    if Effected(before, after, change) {
      var got, want := after.tokens, Edit(Load(before), change);
      forall p
        ensures p in got <==> p in want
        ensures p in got ==> got[p] == want[p]
      {
        if p != change.provider {
          assert Found(after, p) == Found(before, p);
        } else {
          assert Found(after, p) == if change.Put? then Some(change.token) else None;
        }
      }
      assert got == want;
    }
  }

  /** Changes made one after the other. */
  function EditAll(m: Tokens, changes: seq<Change>): Tokens
  {
    if changes == [] then m
    else Edit(EditAll(m, changes[..|changes| - 1]), changes[|changes| - 1])
  }

  // ---------------------------------------------------------------- tasks and their steps

  datatype Task =
    | Waiting(change: Change)
    | Locked(change: Change)
    | Loaded(change: Change, tokens: Tokens)
    | Edited(change: Change, tokens: Tokens)
    | Written(change: Change)
    | Finished(change: Change)
    | Failed(change: Change)

  /** Inside the critical section. */
  predicate Inside(t: Task)
  {
    t.Locked? || t.Loaded? || t.Edited? || t.Written?
  }

  datatype Entry = Entry(task: nat, change: Change)

  /** `granted` lists the changes in the order their tasks got the lock; one that fails is struck off. */
  datatype System = System(file: File, holder: Option<nat>, tasks: map<nat, Task>, granted: seq<Entry>)

  datatype Step =
    | Acquire(id: nat)
    | ReadFile(id: nat)
    | EditMap(id: nat)
    | WriteFile(id: nat)
    | Release(id: nat)
    | GiveUp(id: nat)

  /** The task is at the point in its code where the step comes next. */
  predicate InOrder(s: System, step: Step)
  {
    && step.id in s.tasks
    && var t := s.tasks[step.id];
       match step
       case Acquire(_) => t.Waiting?
       case ReadFile(_) => t.Locked?
       case EditMap(_) => t.Loaded?
       case WriteFile(_) => t.Edited?
       case Release(_) => t.Written?
       case GiveUp(_) => t.Locked? || t.Edited?
  }

  /** And, to enter, no other task holds the mutex. */
  predicate Enabled(s: System, step: Step)
  {
    InOrder(s, step) && (step.Acquire? ==> s.holder.None?)
  }

  function Set(s: System, i: nat, t: Task): System
  {
    s.(tasks := s.tasks[i := t])
  }

  /** `GiveUp` is an error before the file is touched: the guard is dropped and nothing is written. */
  function Do(s: System, step: Step): System
    requires InOrder(s, step)
  {
    var i, t := step.id, s.tasks[step.id];
    match step
    case Acquire(_) => Set(s, i, Locked(t.change)).(holder := Some(i), granted := s.granted + [Entry(i, t.change)])
    case ReadFile(_) => Set(s, i, Loaded(t.change, Load(s.file)))
    case EditMap(_) => Set(s, i, Edited(t.change, Edit(t.tokens, t.change)))
    case WriteFile(_) => Set(s, i, Written(t.change)).(file := Holds(t.tokens))
    case Release(_) => Set(s, i, Finished(t.change)).(holder := None)
    case GiveUp(_) =>
      Set(s, i, Failed(t.change)).(
        holder := None, granted := if s.granted == [] then [] else s.granted[..|s.granted| - 1])
  }

  function Run(s: System, steps: seq<Step>): Option<System>
    decreases steps
  {
    if steps == [] then Some(s)
    else if Enabled(s, steps[0]) then Run(Do(s, steps[0]), steps[1..])
    else None
  }

  predicate Init(s: System)
  {
    s.holder.None? && s.granted == [] && forall i | i in s.tasks :: s.tasks[i].Waiting?
  }

  predicate AllDone(s: System)
  {
    forall i | i in s.tasks :: s.tasks[i].Finished? || s.tasks[i].Failed?
  }

  // ---------------------------------------------------------------- the invariant

  function Changes(entries: seq<Entry>): (cs: seq<Change>)
    ensures |cs| == |entries|
  {
    seq(|entries|, i requires 0 <= i < |entries| => entries[i].change)
  }

  predicate Exclusive(s: System)
  {
    forall i | i in s.tasks && Inside(s.tasks[i]) :: s.holder == Some(i)
  }

  /** The granted entries are the finished tasks and the lock holder, each once and with its own change. */
  predicate GrantedOk(s: System)
  {
    && (forall k | 0 <= k < |s.granted| ::
          var e := s.granted[k];
          e.task in s.tasks && s.tasks[e.task].change == e.change
          && (s.tasks[e.task].Finished? || s.holder == Some(e.task)))
    && (forall k, l | 0 <= k < l < |s.granted| :: s.granted[k].task != s.granted[l].task)
    && (forall i | i in s.tasks && s.tasks[i].Finished? :: Entry(i, s.tasks[i].change) in s.granted)
  }

  /** What the file holds, and what the lock holder has in memory, in terms of the granted changes. */
  predicate FileOk(start: Tokens, s: System)
  {
    if s.holder.None? then Load(s.file) == EditAll(start, Changes(s.granted))
    else
      var i := s.holder.value;
      && i in s.tasks && Inside(s.tasks[i]) && s.granted != []
      && s.granted[|s.granted| - 1] == Entry(i, s.tasks[i].change)
      && var before := EditAll(start, Changes(s.granted[..|s.granted| - 1]));
         match s.tasks[i]
         case Locked(_) => Load(s.file) == before
         case Loaded(_, m) => Load(s.file) == before && m == before
         case Edited(c, m) => Load(s.file) == before && m == Edit(before, c)
         case Written(c) => Load(s.file) == Edit(before, c)
         case _ => false
  }

  predicate Inv(start: Tokens, s: System)
  {
    Exclusive(s) && GrantedOk(s) && FileOk(start, s)
  }

  lemma ChangesSnoc(entries: seq<Entry>, e: Entry)
    ensures Changes(entries + [e]) == Changes(entries) + [e.change]
  {
  }

  lemma EditAllSnoc(m: Tokens, cs: seq<Change>, c: Change)
    ensures EditAll(m, cs + [c]) == Edit(EditAll(m, cs), c)
  {
    assert (cs + [c])[..|cs|] == cs;
  }

  lemma FrontAndLast(entries: seq<Entry>, m: Tokens)
    requires entries != []
    ensures EditAll(m, Changes(entries))
            == Edit(EditAll(m, Changes(entries[..|entries| - 1])), entries[|entries| - 1].change)
  {
    var front, last := entries[..|entries| - 1], entries[|entries| - 1];
    assert entries == front + [last];
    ChangesSnoc(front, last);
    EditAllSnoc(m, Changes(front), last.change);
  }

  lemma AcquireKeepsGranted(s: System, step: Step)
    requires Exclusive(s) && GrantedOk(s) && Enabled(s, step) && step.Acquire?
    ensures GrantedOk(Do(s, step))
  {
    var s' := Do(s, step);
    forall k | 0 <= k < |s.granted| ensures s'.granted[k] == s.granted[k] && s.granted[k].task != step.id {}
    forall i | i in s'.tasks && s'.tasks[i].Finished? ensures Entry(i, s'.tasks[i].change) in s'.granted {
      assert Entry(i, s.tasks[i].change) in s.granted;
    }
  }

  lemma AcquireKeeps(start: Tokens, s: System, step: Step)
    requires Inv(start, s) && Enabled(s, step) && step.Acquire?
    ensures Inv(start, Do(s, step))
  {
    var s' := Do(s, step);
    AcquireKeepsGranted(s, step);
    assert s'.granted[..|s'.granted| - 1] == s.granted;
  }

  lemma GiveUpKeepsGranted(s: System, step: Step)
    requires GrantedOk(s) && Enabled(s, step) && step.GiveUp? && s.holder == Some(step.id)
    requires s.granted != [] && s.granted[|s.granted| - 1].task == step.id
    ensures GrantedOk(Do(s, step))
  {
    var s' := Do(s, step);
    var n := |s.granted|;
    forall k | 0 <= k < n - 1 ensures s.granted[k].task != step.id {}
    forall i | i in s'.tasks && s'.tasks[i].Finished? ensures Entry(i, s'.tasks[i].change) in s'.granted {
      assert Entry(i, s.tasks[i].change) in s.granted;
      var k :| 0 <= k < n && s.granted[k] == Entry(i, s.tasks[i].change);
      assert s'.granted[k] == s.granted[k];
    }
  }

  lemma GiveUpKeeps(start: Tokens, s: System, step: Step)
    requires Inv(start, s) && Enabled(s, step) && step.GiveUp?
    ensures Inv(start, Do(s, step))
  {
    assert Inside(s.tasks[step.id]);
    GiveUpKeepsGranted(s, step);
  }

  lemma InsideKeepsGranted(s: System, step: Step)
    requires GrantedOk(s) && Enabled(s, step) && !step.Acquire? && !step.GiveUp? && s.holder == Some(step.id)
    requires Entry(step.id, s.tasks[step.id].change) in s.granted
    ensures GrantedOk(Do(s, step))
  {
    var s' := Do(s, step);
    forall i | i in s'.tasks && s'.tasks[i].Finished? ensures Entry(i, s'.tasks[i].change) in s'.granted {
      if i != step.id {
        assert Entry(i, s.tasks[i].change) in s.granted;
      }
    }
  }

  lemma ReleaseKeeps(start: Tokens, s: System, step: Step)
    requires Inv(start, s) && Enabled(s, step) && step.Release?
    ensures Inv(start, Do(s, step))
  {
    assert Inside(s.tasks[step.id]);
    assert s.granted[|s.granted| - 1] in s.granted;
    InsideKeepsGranted(s, step);
    ReleaseSettles(start, s, step);
  }

  lemma ReleaseSettles(start: Tokens, s: System, step: Step)
    requires FileOk(start, s) && Enabled(s, step) && step.Release? && s.holder == Some(step.id)
    ensures FileOk(start, Do(s, step))
  {
    FrontAndLast(s.granted, start);
  }

  lemma InsideKeeps(start: Tokens, s: System, step: Step)
    requires Inv(start, s) && Enabled(s, step) && (step.ReadFile? || step.EditMap? || step.WriteFile?)
    ensures Inv(start, Do(s, step))
  {
    assert Inside(s.tasks[step.id]);
    assert s.granted[|s.granted| - 1] in s.granted;
    InsideKeepsGranted(s, step);
  }

  lemma StepKeeps(start: Tokens, s: System, step: Step)
    requires Inv(start, s) && Enabled(s, step)
    ensures Inv(start, Do(s, step))
  {
    if step.Acquire? {
      AcquireKeeps(start, s, step);
    } else if step.GiveUp? {
      GiveUpKeeps(start, s, step);
    } else if step.Release? {
      ReleaseKeeps(start, s, step);
    } else {
      InsideKeeps(start, s, step);
    }
  }

  lemma {:induction false} RunKeeps(start: Tokens, s: System, steps: seq<Step>)
    requires Inv(start, s) && Run(s, steps).Some?
    ensures Inv(start, Run(s, steps).value)
    decreases steps
  {
    if steps != [] {
      StepKeeps(start, s, steps[0]);
      RunKeeps(start, Do(s, steps[0]), steps[1..]);
    }
  }

  /**
   No lost updates: when every task of a run has finished or failed, the file holds the finished
   changes made one after the other in the order in which their tasks got the lock.
   */
  lemma NoLostUpdates(s: System, steps: seq<Step>, end: System)
    requires Init(s) && Run(s, steps) == Some(end) && AllDone(end)
    ensures Load(end.file) == EditAll(Load(s.file), Changes(end.granted))
    ensures forall i | i in end.tasks :: end.tasks[i].Finished? <==> Entry(i, end.tasks[i].change) in end.granted
    ensures forall k, l | 0 <= k < l < |end.granted| :: end.granted[k].task != end.granted[l].task
  {
    var start := Load(s.file);
    assert Inv(start, s);
    RunKeeps(start, s, steps);
    assert end.holder.None?;
  }

  /** A provider's token after changes made one after the other is what the last change to it made. */
  lemma {:induction false} LastChangeWins(m: Tokens, cs: seq<Change>, n: nat)
    requires n < |cs| && forall i | n < i < |cs| :: cs[i].provider != cs[n].provider
    ensures Found(Holds(EditAll(m, cs)), cs[n].provider) == if cs[n].Put? then Some(cs[n].token) else None
  {
    if n < |cs| - 1 {
      LastChangeWins(m, cs[..|cs| - 1], n);
    }
  }

  /** Every finished change is in the final file unless a task that got the lock later changed the same provider. */
  lemma FinishedChangeSurvives(s: System, steps: seq<Step>, end: System, n: nat)
    requires Init(s) && Run(s, steps) == Some(end) && AllDone(end) && n < |end.granted|
    requires forall l | n < l < |end.granted| :: end.granted[l].change.provider != end.granted[n].change.provider
    ensures var c := end.granted[n].change;
            Found(end.file, c.provider) == if c.Put? then Some(c.token) else None
  {
    NoLostUpdates(s, steps, end);
    LastChangeWins(Load(s.file), Changes(end.granted), n);
  }

  // ---------------------------------------------------------------- one caller at a time

  lemma RunCons(s: System, step: Step, rest: seq<Step>)
    requires Enabled(s, step)
    ensures Run(s, [step] + rest) == Run(Do(s, step), rest)
  {
  }

  /** One call from the moment it gets the mutex to the moment it gives it back. */
  function Call(i: nat): seq<Step>
  {
    [Acquire(i)] + ([ReadFile(i)] + ([EditMap(i)] + ([WriteFile(i)] + ([Release(i)] + []))))
  }

  /** A call that nobody interrupts has the effect its caller asked for, and leaves the mutex free. */
  lemma SoloCall(s: System, i: nat)
    requires s.holder.None? && i in s.tasks && s.tasks[i].Waiting?
    ensures var end := Run(s, Call(i));
            && end.Some? && end.value.holder.None?
            && end.value.tasks == s.tasks[i := Finished(s.tasks[i].change)]
            && Effected(s.file, end.value.file, s.tasks[i].change)
  {
    var s1 := Do(s, Acquire(i));
    var s2 := Do(s1, ReadFile(i));
    var s3 := Do(s2, EditMap(i));
    var s4 := Do(s3, WriteFile(i));
    RunCons(s4, Release(i), []);
    RunCons(s3, WriteFile(i), [Release(i)] + []);
    RunCons(s2, EditMap(i), [WriteFile(i)] + ([Release(i)] + []));
    RunCons(s1, ReadFile(i), [EditMap(i)] + ([WriteFile(i)] + ([Release(i)] + [])));
    RunCons(s, Acquire(i), [ReadFile(i)] + ([EditMap(i)] + ([WriteFile(i)] + ([Release(i)] + []))));
    EffectedIff(s.file, s4.file, s.tasks[i].change);
  }

  class FileTokenStore {
    var file: File

    method SaveToken(provider: Provider, token: Token)
      modifies this
      ensures Found(file, provider) == Some(token)
      ensures forall p | p != provider :: Found(file, p) == old(Found(file, p))
      ensures Effected(old(file), file, Put(provider, token))
    {
      var tokens := Load(file);
      tokens := tokens[provider := token];
      file := Holds(tokens);
    }

    method DeleteToken(provider: Provider)
      modifies this
      ensures Found(file, provider) == None
      ensures forall p | p != provider :: Found(file, p) == old(Found(file, p))
      ensures Effected(old(file), file, Remove(provider))
    {
      var tokens := Load(file);
      tokens := tokens - {provider};
      file := Holds(tokens);
    }
  }

  // ---------------------------------------------------------------- without the mutex

  predicate Succeeded(s: System, i: nat)
  {
    i in s.tasks && s.tasks[i].Finished?
  }

  /** The same code with the lock calls doing nothing. */
  function RunUnlocked(s: System, steps: seq<Step>): Option<System>
    decreases steps
  {
    if steps == [] then Some(s)
    else if InOrder(s, steps[0]) then RunUnlocked(Do(s, steps[0]), steps[1..])
    else None
  }

  lemma RunUnlockedCons(s: System, step: Step, rest: seq<Step>)
    requires InOrder(s, step)
    ensures RunUnlocked(s, [step] + rest) == RunUnlocked(Do(s, step), rest)
  {
  }

  lemma RunUnlockedPair(s: System, a: Step, b: Step, rest: seq<Step>)
    requires InOrder(s, a) && InOrder(Do(s, a), b)
    ensures RunUnlocked(s, [a] + ([b] + rest)) == RunUnlocked(Do(Do(s, a), b), rest)
  {
    RunUnlockedCons(s, a, [b] + rest);
    RunUnlockedCons(Do(s, a), b, rest);
  }

  /** Two calls step by step in turn, i always just ahead of j. */
  function InTurn(i: nat, j: nat): seq<Step>
  {
    [Acquire(i)] + ([Acquire(j)] + ([ReadFile(i)] + ([ReadFile(j)] + LateHalf(i, j))))
  }

  function LateHalf(i: nat, j: nat): seq<Step>
  {
    [EditMap(i)] + ([EditMap(j)] + ([WriteFile(i)] + ([WriteFile(j)] + ([Release(i)] + ([Release(j)] + [])))))
  }

  lemma LateHalfEnds(s: System, i: nat, j: nat, m: Tokens, c: Change, d: Change)
    requires i != j && i in s.tasks && j in s.tasks && s.tasks[i] == Loaded(c, m) && s.tasks[j] == Loaded(d, m)
    ensures var end := RunUnlocked(s, LateHalf(i, j));
            && end.Some? && Succeeded(end.value, i) && Succeeded(end.value, j)
            && Load(end.value.file) == Edit(m, d)
  {
    var s1 := Do(Do(s, EditMap(i)), EditMap(j));
    var s2 := Do(Do(s1, WriteFile(i)), WriteFile(j));
    RunUnlockedPair(s2, Release(i), Release(j), []);
    RunUnlockedPair(s1, WriteFile(i), WriteFile(j), [Release(i)] + ([Release(j)] + []));
    RunUnlockedPair(s, EditMap(i), EditMap(j), [WriteFile(i)] + ([WriteFile(j)] + ([Release(i)] + ([Release(j)] + []))));
  }

  /** In turn without the mutex, both calls report success and the file has the second change only. */
  lemma InTurnKeepsSecondOnly(s: System, i: nat, j: nat)
    requires Init(s) && i != j && i in s.tasks && j in s.tasks
    ensures Run(s, InTurn(i, j)).None?
    ensures var end := RunUnlocked(s, InTurn(i, j));
            && end.Some? && Succeeded(end.value, i) && Succeeded(end.value, j)
            && Load(end.value.file) == Edit(Load(s.file), s.tasks[j].change)
  {
    var c, d := s.tasks[i].change, s.tasks[j].change;
    RunCons(s, Acquire(i), [Acquire(j)] + ([ReadFile(i)] + ([ReadFile(j)] + LateHalf(i, j))));
    var s1 := Do(Do(s, Acquire(i)), Acquire(j));
    var s2 := Do(Do(s1, ReadFile(i)), ReadFile(j));
    LateHalfEnds(s2, i, j, Load(s.file), c, d);
    RunUnlockedPair(s1, ReadFile(i), ReadFile(j), LateHalf(i, j));
    RunUnlockedPair(s, Acquire(i), Acquire(j), [ReadFile(i)] + ([ReadFile(j)] + LateHalf(i, j)));
  }

  /** So a new provider's token is lost: no order of the two saves gives the file that results. */
  lemma UnlockedWritesLoseTokens(s: System, i: nat, j: nat, p: Provider, q: Provider, a: Token, b: Token)
    requires Init(s) && i in s.tasks && j in s.tasks && p != q && p !in Load(s.file)
    requires s.tasks[i] == Waiting(Put(p, a)) && s.tasks[j] == Waiting(Put(q, b))
    ensures var end := RunUnlocked(s, InTurn(i, j));
            && end.Some? && Succeeded(end.value, i) && Succeeded(end.value, j)
            && Found(end.value.file, p) == None
            && Load(end.value.file) != EditAll(Load(s.file), [Put(p, a), Put(q, b)])
            && Load(end.value.file) != EditAll(Load(s.file), [Put(q, b), Put(p, a)])
  {
    InTurnKeepsSecondOnly(s, i, j);
    LastChangeWins(Load(s.file), [Put(p, a), Put(q, b)], 0);
    LastChangeWins(Load(s.file), [Put(q, b), Put(p, a)], 1);
  }
}
