/**
 The panel's backfill of finished chat tasks: at most one fetch of a task's output is under way, its
 result is pushed into the chat history, and a task that was fetched once is never fetched again.
 */
module Backfill {
  import opened Wrappers
  import opened Elements
  import opened StringOrder
  import opened Chunking
  import opened Timestamps

  type TaskId = string

  datatype TaskInfo = TaskInfo(id: TaskId, threadId: Option<string>, name: string, status: string, updatedAt: string)

  datatype Message = Message(role: string, content: string, taskId: Option<TaskId>)

  /** The outcome of `get_task_output`; the text is already trimmed and not empty. */
  datatype Fetched =
    | Output(taskId: TaskId, threadId: Option<string>, responseText: Option<string>)
    | FetchError(error: string)

  type Histories = map<string, seq<Message>>

  const MAX_CHAT_MESSAGES: nat := 100
  const PANEL_TEXT_LIMIT: nat := 12_000
  const SUPERVISOR: string := "foreground_chat_supervisor"

  // ---------------------------------------------------------------- which task comes next

  predicate TerminalStatus(status: string)
  {
    status in {"completed", "blocked", "failed", "cancelled", "paused"}
  }

  predicate Eligible(t: TaskInfo, session: string, appended: set<TaskId>)
  {
    t.threadId == Some(session) && t.name == SUPERVISOR && TerminalStatus(t.status) && t.id !in appended
  }

  /** `updated_at` is text and is compared as text. */
  predicate NotLater(a: TaskInfo, b: TaskInfo)
  {
    AtMost(a.updatedAt, b.updatedAt)
  }

  /** Text order is not time order: a time with a fraction sorts before the whole second it follows. */
  lemma FractionSortsFirst(second: string, digits: string)
    ensures Before(second + "." + digits + "Z", second + "Z")
  {
    var fraction := "." + digits + "Z";
    assert second + "." + digits + "Z" == second + fraction;
    assert fraction[0] == '.' && "Z"[0] == 'Z';
    BeforeAfterPrefix(second, fraction, "Z");
  }

  /** The eligible task whose `updated_at` is last in text order; among equals, the last in the list. */
  function Pick(tasks: seq<TaskInfo>, session: string, appended: set<TaskId>): Option<TaskInfo>
  {
    if tasks == [] then None
    else
      var best, t := Pick(tasks[..|tasks| - 1], session, appended), tasks[|tasks| - 1];
      if Eligible(t, session, appended) && (best.None? || NotLater(best.value, t)) then Some(t) else best
  }

  /** A task is picked exactly when one is eligible, and no eligible one comes later in text order. */
  lemma {:induction false} PickIsLatest(tasks: seq<TaskInfo>, session: string, appended: set<TaskId>)
    ensures var best := Pick(tasks, session, appended);
            && (best.Some? ==> best.value in tasks && Eligible(best.value, session, appended))
            && (forall t | t in tasks && Eligible(t, session, appended) :: best.Some? && NotLater(t, best.value))
  {
    if tasks != [] {
      var front, last := tasks[..|tasks| - 1], tasks[|tasks| - 1];
      assert tasks == front + [last];
      PickIsLatest(front, session, appended);
      var before := Pick(front, session, appended);
      AtMostTotal(last.updatedAt, last.updatedAt);
      if before.Some? {
        AtMostTotal(before.value.updatedAt, last.updatedAt);
        forall t | t in front && Eligible(t, session, appended) && NotLater(before.value, last) ensures NotLater(t, last) {
          AtMostTransitive(t.updatedAt, before.value.updatedAt, last.updatedAt);
        }
      }
    }
  }

  /** Among equally recent tasks the last one of the list is picked. */
  lemma {:induction false} PickIsLastOfEqual(tasks: seq<TaskInfo>, session: string, appended: set<TaskId>) returns (i: nat)
    requires Pick(tasks, session, appended).Some?
    ensures i < |tasks| && tasks[i] == Pick(tasks, session, appended).value
    ensures forall j | i < j < |tasks| && Eligible(tasks[j], session, appended) :: Before(tasks[j].updatedAt, tasks[i].updatedAt)
  {
    var front, last := tasks[..|tasks| - 1], tasks[|tasks| - 1];
    var best := Pick(front, session, appended);
    if Eligible(last, session, appended) && (best.None? || NotLater(best.value, last)) {
      i := |tasks| - 1;
    } else {
      i := PickIsLastOfEqual(front, session, appended);
      BeforeIrreflexiveTotal(last.updatedAt, best.value.updatedAt);
      AtMostTotal(best.value.updatedAt, last.updatedAt);
    }
  }

  /** Every `updated_at` is the text of the moment of its task. */
  ghost predicate Stamped(tasks: seq<TaskInfo>, moment: TaskInfo -> Stamp)
  {
    forall t | t in tasks :: InRange(moment(t)) && t.updatedAt == Text(moment(t))
  }

  ghost predicate LatestInTime(tasks: seq<TaskInfo>, session: string, appended: set<TaskId>,
                               moment: TaskInfo -> Stamp, latest: TaskInfo)
  {
    && latest in tasks && Eligible(latest, session, appended)
    && forall t | t in tasks && Eligible(t, session, appended) :: !Earlier(moment(latest), moment(t))
  }

  /** An earlier moment whose text does not come before is cut short. */
  lemma LaterTextIsCut(a: Stamp, b: Stamp)
    requires InRange(a) && InRange(b) && Earlier(a, b) && AtMost(Text(b), Text(a)) && !Earlier(b, a)
    ensures CutsShort(a, b)
  {
    TextOrderIsTimeOrderIff(a, b);
    if CutsShort(b, a) {
      CutsShortReverses(b, a);
    }
    if Before(Text(a), Text(b)) {
      AtMostAntisymmetric(Text(a), Text(b));
    }
  }

  /**
   The picked task is one of the latest in time if and only if no eligible task of the same second
   has a timestamp whose fraction, possibly none, is a proper beginning of the latest one's.
   */
  lemma PickIsLatestInTimeIff(tasks: seq<TaskInfo>, session: string, appended: set<TaskId>,
                              moment: TaskInfo -> Stamp, latest: TaskInfo)
    requires Stamped(tasks, moment) && LatestInTime(tasks, session, appended, moment, latest)
    ensures var pick := Pick(tasks, session, appended);
            && pick.Some?
            && (moment(pick.value) == moment(latest) <==>
                forall t | t in tasks && Eligible(t, session, appended) :: !CutsShort(moment(t), moment(latest)))
  {
    PickIsLatest(tasks, session, appended);
    var pick := Pick(tasks, session, appended).value;
    var p, l := moment(pick), moment(latest);
    assert !Earlier(l, p) && AtMost(Text(l), Text(p));
    EarlierTotal(p, l);
    if t :| t in tasks && Eligible(t, session, appended) && CutsShort(moment(t), l) {
      CutsShortReverses(moment(t), l);
      assert AtMost(Text(moment(t)), Text(p));
      if p == l {
        AtMostAntisymmetric(Text(l), Text(moment(t)));
      }
    } else if p != l {
      LaterTextIsCut(p, l);
    }
  }

  // ---------------------------------------------------------------- histories

  function HistoryKey(session: string, role: string): string
  {
    session + ":" + role
  }

  function HistoryAt(hs: Histories, key: string): seq<Message>
  {
    if key in hs then hs[key] else []
  }

  function Decimal(n: nat): string
  {
    if n < 10 then [('0' as int + n) as char] else Decimal(n / 10) + [('0' as int + n % 10) as char]
  }

  /** The note gives the original length; its wording is shortened here. */
  function TruncationNote(count: nat): string
  {
    "[was " + Decimal(count) + "]"
  }

  /** Text longer than the limit is shown as its head and tail around a note. */
  function CompactText(text: string): string
  {
    if |text| <= PANEL_TEXT_LIMIT then text
    else text[..8_000] + TruncationNote(|text|) + text[|text| - 2_000..]
  }

  predicate Contains(hs: Histories, key: string, content: string)
  {
    exists m | m in HistoryAt(hs, key) :: m.role == "agent" && Trim(m.content) == Trim(content)
  }

  /** An agent message of the history has the text, up to surrounding whitespace. */
  predicate AgentSaid(h: seq<Message>, text: string)
  {
    exists i | 0 <= i < |h| :: h[i].role == "agent" && Trim(h[i].content) == Trim(text)
  }

  lemma ContainsIff(hs: Histories, key: string, content: string)
    ensures Contains(hs, key, content) <==> AgentSaid(HistoryAt(hs, key), content)
  {
    var h := HistoryAt(hs, key);
    if i :| 0 <= i < |h| && h[i].role == "agent" && Trim(h[i].content) == Trim(content) {
      assert h[i] in h;
    }
  }

  function Capped(h: seq<Message>): seq<Message>
  {
    if |h| > MAX_CHAT_MESSAGES then h[|h| - MAX_CHAT_MESSAGES..] else h
  }

  function Pushed(hs: Histories, key: string, m: Message): Histories
  {
    hs[key := Capped(HistoryAt(hs, key) + [m.(content := CompactText(m.content))])]
  }

  /** The newest messages up to the cap, in their order. */
  predicate NewestOf(h: seq<Message>, full: seq<Message>)
  {
    && |h| == (if |full| <= 100 then |full| else 100)
    && forall i | 0 <= i < |h| :: h[i] == full[|full| - |h| + i]
  }

  lemma CappedIsNewest(full: seq<Message>)
    ensures NewestOf(Capped(full), full)
  {
  }

  /** A history keeps its newest messages up to the cap, the pushed one last; no other history changes. */
  lemma PushKeepsNewest(hs: Histories, key: string, m: Message)
    ensures NewestOf(HistoryAt(Pushed(hs, key, m), key),
                     HistoryAt(hs, key) + [m.(content := CompactText(m.content))])
    ensures forall k | k != key :: HistoryAt(Pushed(hs, key, m), k) == HistoryAt(hs, k)
  {
    CappedIsNewest(HistoryAt(hs, key) + [m.(content := CompactText(m.content))]);
  }

  lemma {:induction false} DecimalShort(n: nat)
    ensures |Decimal(n)| <= n / 10 + 1
  {
    if n >= 10 {
      DecimalShort(n / 10);
    }
  }

  /** A text of up to 12000 characters is kept; of a longer one the first 8000 and the last 2000, around the note. */
  lemma CompactIs(text: string)
    ensures |text| <= 12_000 ==> CompactText(text) == text
    ensures |text| > 12_000 ==>
              var c := CompactText(text);
              && |c| >= 10_000 && c[..8_000] == text[..8_000] && c[|c| - 2_000..] == text[|text| - 2_000..]
              && c[8_000..|c| - 2_000] == TruncationNote(|text|)
  {
    if |text| > 12_000 {
      var head, note, tail := text[..8_000], TruncationNote(|text|), text[|text| - 2_000..];
      assert CompactText(text) == head + note + tail;
    }
  }

  lemma {:induction false} DecimalIs(n: nat)
    ensures NumberOf(Decimal(n)) == n
  {
    var s := Decimal(n);
    if n >= 10 {
      DecimalIs(n / 10);
      assert s[..|s| - 1] == Decimal(n / 10);
    } else {
      assert s[..0] == [];
    }
  }

  lemma CompactIsShorter(text: string)
    requires |text| > PANEL_TEXT_LIMIT
    ensures |CompactText(text)| < |text|
  {
    DecimalShort(|text|);
  }

  lemma TrimLength(s: string)
    ensures |Trim(s)| <= |s|
  {
  }

  lemma NewestElements(h: seq<Message>, front: seq<Message>, last: Message)
    requires NewestOf(h, front + [last])
    ensures last in h && forall x | x in h && x != last :: x in front
  {
    var full := front + [last];
    assert h[|h| - 1] == full[|full| - 1];
    forall x | x in h && x != last ensures x in front {
      var i :| 0 <= i < |h| && h[i] == x;
      assert full[|full| - |h| + i] == x;
    }
  }

  lemma KeptWholeIff(text: string)
    requires Trim(text) == text
    ensures Trim(CompactText(text)) == text <==> |text| <= PANEL_TEXT_LIMIT
  {
    if |text| > PANEL_TEXT_LIMIT {
      CompactIsShorter(text);
      TrimLength(CompactText(text));
    }
  }

  /**
   Whatever the history holds, the content check recognises an output just pushed exactly when its
   text was short enough to be kept whole; for a longer one only the set of fetched tasks prevents
   a second push. An output is pushed when the check did not recognise it before.
   */
  lemma PushedIsRecognisedIff(hs: Histories, key: string, m: Message)
    requires m.role == "agent" && Trim(m.content) == m.content && !Contains(hs, key, m.content)
    ensures Contains(Pushed(hs, key, m), key, m.content) <==> |m.content| <= 12_000
  {
    var kept := m.(content := CompactText(m.content));
    PushKeepsNewest(hs, key, m);
    NewestElements(HistoryAt(Pushed(hs, key, m), key), HistoryAt(hs, key), kept);
    KeptWholeIff(m.content);
  }

  // ---------------------------------------------------------------- the state machine

  /** The fields of the panel that the backfill uses, and a log of what it did. */
  datatype Panel = Panel(
    promise: Option<TaskId>,
    pendingTask: Option<TaskId>,
    pendingSession: Option<string>,
    appended: set<TaskId>,
    histories: Histories,
    fetches: seq<TaskId>,
    pushes: seq<TaskId>)

  const FRESH := Panel(None, None, None, {}, map[], [], [])

  /** Inputs of one frame; `ready` is what the promise yields if it is resolved by then. */
  datatype Event =
    | Start(session: string, tasks: seq<TaskInfo>)
    | Poll(ready: Option<Fetched>, role: string, activeSession: string)
    | Reload(histories: Histories)

  function Started(p: Panel, session: string, tasks: seq<TaskInfo>): Panel
  {
    if p.promise.Some? then p
    else
      var task := Pick(tasks, session, p.appended);
      if task.None? then p
      else
        p.(promise := Some(task.value.id), pendingTask := Some(task.value.id), pendingSession := Some(session),
           fetches := p.fetches + [task.value.id])
  }

  /** Which history a fetched output belongs to. */
  function TargetSession(p: Panel, output: Fetched, activeSession: string): string
    requires output.Output?
  {
    if p.pendingSession.Some? then p.pendingSession.value
    else if output.threadId.Some? then output.threadId.value
    else activeSession
  }

  function Polled(p: Panel, ready: Option<Fetched>, role: string, activeSession: string): Panel
  {
    if p.promise.None? || ready.None? then p
    else
      var cleared := p.(promise := None, pendingTask := None, pendingSession := None);
      match ready.value
      case Output(outputTask, _, text) =>
        var id := if p.pendingTask.Some? then p.pendingTask.value else outputTask;
        var key := HistoryKey(TargetSession(p, ready.value, activeSession), role);
        var done := cleared.(appended := p.appended + {id});
        if text.None? || Contains(p.histories, key, text.value) then done
        else done.(histories := Pushed(p.histories, key, Message("agent", text.value, Some(id))),
                   pushes := p.pushes + [id])
      case FetchError(_) =>
        cleared.(appended := p.appended + if p.pendingTask.Some? then {p.pendingTask.value} else {})
  }

  function Step(p: Panel, e: Event): Panel
  {
    match e
    case Start(session, tasks) => Started(p, session, tasks)
    case Poll(ready, role, active) => Polled(p, ready, role, active)
    case Reload(hs) => p.(histories := hs)
  }

  function Run(p: Panel, es: seq<Event>): Panel
  {
    if es == [] then p else Step(Run(p, es[..|es| - 1]), es[|es| - 1])
  }

  function Pending(p: Panel): set<TaskId>
  {
    if p.promise.Some? then {p.promise.value} else {}
  }

  /** The three pending fields are set together and about one task, and everything fetched is accounted for. */
  ghost predicate Inv(p: Panel)
  {
    && p.pendingTask == p.promise && (p.pendingSession.Some? <==> p.promise.Some?)
    && Pending(p) !! p.appended
    && ToSet(p.fetches) == p.appended + Pending(p) && Distinct(p.fetches)
    && ToSet(p.pushes) <= p.appended && Distinct(p.pushes)
  }

  lemma StartKeeps(p: Panel, session: string, tasks: seq<TaskInfo>)
    requires Inv(p)
    ensures Inv(Started(p, session, tasks))
  {
    var task := Pick(tasks, session, p.appended);
    PickIsLatest(tasks, session, p.appended);
    if p.promise.None? && task.Some? {
      DistinctSnoc(p.fetches, task.value.id);
    }
  }

  lemma PollKeeps(p: Panel, ready: Option<Fetched>, role: string, active: string)
    requires Inv(p)
    ensures Inv(Polled(p, ready, role, active))
  {
  }

  lemma {:induction false} RunKeeps(p: Panel, es: seq<Event>)
    requires Inv(p)
    ensures Inv(Run(p, es))
  {
    if es != [] {
      var before := Run(p, es[..|es| - 1]);
      RunKeeps(p, es[..|es| - 1]);
      match es[|es| - 1] {
        case Start(session, tasks) => StartKeeps(before, session, tasks);
        case Poll(ready, role, active) => PollKeeps(before, ready, role, active);
        case Reload(_) =>
      }
    }
  }

  /**
   Over any run: no task is fetched twice and none is pushed twice, whether fetches succeed or fail;
   the pending fields are all set or all unset; and what has been fetched is resolved or is the one
   fetch still under way.
   */
  lemma AtMostOncePerTask(es: seq<Event>, end: Panel)
    requires end == Run(FRESH, es)
    ensures Distinct(end.fetches) && Distinct(end.pushes)
    ensures end.pendingTask == end.promise && (end.pendingSession.Some? <==> end.promise.Some?)
    ensures ToSet(end.fetches) == end.appended + Pending(end) && ToSet(end.pushes) <= end.appended
  {
    assert Inv(FRESH);
    RunKeeps(FRESH, es);
  }

  // ---------------------------------------------------------------- whose output goes where

  /** What makes a task one to fetch, in the words of the panel. */
  predicate MayFetch(t: TaskInfo, session: string, appended: set<TaskId>)
  {
    && t.threadId == Some(session)
    && t.name == "foreground_chat_supervisor"
    && (t.status == "completed" || t.status == "blocked" || t.status == "failed" || t.status == "cancelled"
        || t.status == "paused")
    && t.id !in appended
  }

  lemma EligibleIff(t: TaskInfo, session: string, appended: set<TaskId>)
    ensures Eligible(t, session, appended) <==> MayFetch(t, session, appended)
  {
  }

  function Fetching(p: Panel, id: TaskId, session: string): Panel
  {
    p.(promise := Some(id), pendingTask := Some(id), pendingSession := Some(session), fetches := p.fetches + [id])
  }

  /** The panel after a start: a fetch of one such task, exactly when there is one and no fetch is under way. */
  lemma StartedIs(p: Panel, session: string, tasks: seq<TaskInfo>)
    ensures var p' := Started(p, session, tasks);
            && (p' == p || (p.promise.None? && exists t | t in tasks ::
                              MayFetch(t, session, p.appended) && p' == Fetching(p, t.id, session)))
            && (p' != p <==> p.promise.None? && exists t | t in tasks :: MayFetch(t, session, p.appended))
  {
    var pick := Pick(tasks, session, p.appended);
    PickIsLatest(tasks, session, p.appended);
    forall t | t in tasks ensures Eligible(t, session, p.appended) <==> MayFetch(t, session, p.appended) {
      EligibleIff(t, session, p.appended);
    }
    if p.promise.None? && pick.Some? {
      assert Started(p, session, tasks) == Fetching(p, pick.value.id, session);
      assert Fetching(p, pick.value.id, session).promise != p.promise;
    }
  }

  /** The n-th event of the run started the fetch of a task of its own session that had not been fetched before. */
  ghost predicate StartedAt(es: seq<Event>, n: nat, id: TaskId)
  {
    && n < |es| && es[n].Start?
    && var p := Run(FRESH, es[..n]);
       && p.promise.None? && id !in p.fetches
       && Run(FRESH, es[..n + 1]) == Fetching(p, id, es[n].session)
       && exists t | t in es[n].tasks :: t.id == id && MayFetch(t, es[n].session, p.appended)
  }

  lemma StartedAtExtends(es: seq<Event>, n: nat, id: TaskId)
    requires es != [] && StartedAt(es[..|es| - 1], n, id)
    ensures StartedAt(es, n, id)
  {
    var front := es[..|es| - 1];
    assert front[..n] == es[..n] && front[..n + 1] == es[..n + 1];
  }

  lemma LastStarts(es: seq<Event>)
    requires es != [] && es[|es| - 1].Start?
    requires Run(FRESH, es) != Run(FRESH, es[..|es| - 1])
    ensures Run(FRESH, es).promise.Some?
    ensures var id := Run(FRESH, es).promise.value;
            && StartedAt(es, |es| - 1, id)
            && Run(FRESH, es) == Fetching(Run(FRESH, es[..|es| - 1]), id, es[|es| - 1].session)
  {
    var n := |es| - 1;
    var p := Run(FRESH, es[..n]);
    assert es[..n + 1] == es;
    assert Inv(FRESH);
    RunKeeps(FRESH, es[..n]);
    StartedIs(p, es[n].session, es[n].tasks);
    var t :| t in es[n].tasks && MayFetch(t, es[n].session, p.appended)
             && Run(FRESH, es) == Fetching(p, t.id, es[n].session);
    assert t.id !in ToSet(p.fetches);
  }

  /** Over any run, every fetch is of a task of the session whose start fetched it. */
  lemma {:induction false} FetchesAreOwn(es: seq<Event>, id: TaskId)
    requires id in Run(FRESH, es).fetches
    ensures exists n: nat :: StartedAt(es, n, id)
  {
    var front := es[..|es| - 1];
    if id in Run(FRESH, front).fetches {
      FetchesAreOwn(front, id);
      var n: nat :| StartedAt(front, n, id);
      StartedAtExtends(es, n, id);
    } else {
      LastStarts(es);
    }
  }

  /** The fetch under way belongs to the session kept with it. */
  lemma {:induction false} PendingIsStarted(es: seq<Event>) returns (n: nat)
    requires Run(FRESH, es).promise.Some?
    ensures StartedAt(es, n, Run(FRESH, es).promise.value)
    ensures Run(FRESH, es).pendingSession == Some(es[n].session)
  {
    var front, last := es[..|es| - 1], es[|es| - 1];
    if last.Start? && Run(FRESH, es) != Run(FRESH, front) {
      LastStarts(es);
      n := |es| - 1;
    } else {
      n := PendingIsStarted(front);
      StartedAtExtends(es, n, Run(FRESH, es).promise.value);
    }
  }

  /** The result has a text that no agent message of the history has yet. */
  predicate IsNews(h: seq<Message>, result: Fetched)
  {
    result.Output? && result.responseText.Some? && !AgentSaid(h, result.responseText.value)
  }

  /**
   A resolved fetch: its task is marked; only the history of the session it was started in, for the
   role shown, can change; and news is appended there as an agent message of the task.
   */
  lemma PollIs(p: Panel, result: Fetched, role: string, active: string)
    requires Inv(p) && p.promise.Some?
    ensures var p' := Polled(p, Some(result), role, active);
            var key, id := p.pendingSession.value + ":" + role, p.promise.value;
            && p'.promise.None? && p'.appended == p.appended + {id} && p'.fetches == p.fetches
            && (forall k | k != key :: HistoryAt(p'.histories, k) == HistoryAt(p.histories, k))
            && if IsNews(HistoryAt(p.histories, key), result)
               then
                 && p'.pushes == p.pushes + [id]
                 && NewestOf(HistoryAt(p'.histories, key),
                             HistoryAt(p.histories, key)
                             + [Message("agent", CompactText(result.responseText.value), Some(id))])
               else p'.histories == p.histories && p'.pushes == p.pushes
  {
    var key, id := p.pendingSession.value + ":" + role, p.promise.value;
    if result.Output? && result.responseText.Some? {
      ContainsIff(p.histories, key, result.responseText.value);
      PushKeepsNewest(p.histories, key, Message("agent", result.responseText.value, Some(id)));
    }
  }

  /** A fetch that is not resolved yet, and a poll without a fetch, change nothing. */
  lemma PollWaits(p: Panel, ready: Option<Fetched>, role: string, active: string)
    requires p.promise.None? || ready.None?
    ensures Polled(p, ready, role, active) == p
  {
  }

  /** Without a session of its own, an output goes to the session of its thread, and else to the active one. */
  lemma PollWithoutSession(p: Panel, output: Fetched, role: string, active: string)
    requires p.promise.Some? && p.pendingSession.None? && output.Output?
    ensures var p' := Polled(p, Some(output), role, active);
            var session := if output.threadId.Some? then output.threadId.value else active;
            forall k | k != session + ":" + role :: HistoryAt(p'.histories, k) == HistoryAt(p.histories, k)
  {
  }

  /** Over any run, what a poll pushes goes into the history of the session whose start fetched it, and nowhere else. */
  lemma OutputGoesHome(es: seq<Event>, e: Event)
    requires e.Poll? && Step(Run(FRESH, es), e).pushes != Run(FRESH, es).pushes
    ensures exists n: nat, id ::
              && StartedAt(es, n, id)
              && Step(Run(FRESH, es), e).pushes == Run(FRESH, es).pushes + [id]
              && forall k | k != es[n].session + ":" + e.role ::
                   HistoryAt(Step(Run(FRESH, es), e).histories, k) == HistoryAt(Run(FRESH, es).histories, k)
  {
    var p := Run(FRESH, es);
    assert Inv(FRESH);
    RunKeeps(FRESH, es);
    PollIs(p, e.ready.value, e.role, e.activeSession);
    var n := PendingIsStarted(es);
    assert StartedAt(es, n, p.promise.value);
  }

  // ---------------------------------------------------------------- progress

  /** Tasks of the list that could still be fetched. */
  function Open(tasks: seq<TaskInfo>, session: string, appended: set<TaskId>): set<TaskId>
  {
    set t | t in tasks && Eligible(t, session, appended) :: t.id
  }

  /** With no fetch under way, one is started exactly when the list has an open task. */
  lemma StartsIff(p: Panel, session: string, tasks: seq<TaskInfo>)
    requires p.promise.None?
    ensures Started(p, session, tasks).promise.Some? <==> Open(tasks, session, p.appended) != {}
    ensures var id := Started(p, session, tasks).promise;
            id.Some? ==> id.value in Open(tasks, session, p.appended)
  {
    var task := Pick(tasks, session, p.appended);
    PickIsLatest(tasks, session, p.appended);
    if task.Some? {
      assert task.value.id in Open(tasks, session, p.appended);
    } else {
      assert forall t | t in tasks :: !Eligible(t, session, p.appended);
    }
  }

  /** For a fixed list, each resolved fetch leaves exactly one open task fewer. */
  lemma ResolvedFetchShrinksOpen(p: Panel, session: string, tasks: seq<TaskInfo>, result: Fetched,
                                 role: string, active: string)
    requires Inv(p) && p.promise.None? && Open(tasks, session, p.appended) != {}
    ensures var p' := Polled(Started(p, session, tasks), Some(result), role, active);
            && Inv(p') && p'.promise.None?
            && |Open(tasks, session, p'.appended)| == |Open(tasks, session, p.appended)| - 1
  {
    var s := Started(p, session, tasks);
    StartsIff(p, session, tasks);
    StartKeeps(p, session, tasks);
    assert s.appended == p.appended;
    PollKeeps(s, Some(result), role, active);
    PollMarks(s, result, role, active);
    OpenWithout(tasks, session, p.appended, s.promise.value);
  }

  /** A resolved fetch clears the promise and marks its task, whatever the result. */
  lemma PollMarks(p: Panel, result: Fetched, role: string, active: string)
    requires Inv(p) && p.promise.Some?
    ensures var p' := Polled(p, Some(result), role, active);
            p'.promise.None? && p'.appended == p.appended + {p.promise.value}
  {
  }

  lemma OpenWithout(tasks: seq<TaskInfo>, session: string, appended: set<TaskId>, id: TaskId)
    ensures Open(tasks, session, appended + {id}) == Open(tasks, session, appended) - {id}
  {
  }

  /** Rounds of starting a fetch and resolving it, with the given results. */
  function Rounds(p: Panel, session: string, tasks: seq<TaskInfo>, results: seq<Fetched>,
                  role: string, active: string): Panel
    decreases |results|
  {
    if results == [] then p
    else
      var next := Polled(Started(p, session, tasks), Some(results[0]), role, active);
      Rounds(next, session, tasks, results[1..], role, active)
  }

  /** As many rounds as there are open tasks drain the list, whatever the fetches return. */
  lemma {:induction false} RoundsDrain(p: Panel, session: string, tasks: seq<TaskInfo>, results: seq<Fetched>,
                                       role: string, active: string)
    requires Inv(p) && p.promise.None?
    requires |results| == |Open(tasks, session, p.appended)|
    ensures Open(tasks, session, Rounds(p, session, tasks, results, role, active).appended) == {}
    decreases |results|
  {
    if results != [] {
      ResolvedFetchShrinksOpen(p, session, tasks, results[0], role, active);
      var next := Polled(Started(p, session, tasks), Some(results[0]), role, active);
      RoundsDrain(next, session, tasks, results[1..], role, active);
    }
  }

  lemma PollTouchesOne(p: Panel, ready: Option<Fetched>, role: string, active: string)
    requires p.pendingSession.Some?
    ensures forall k | k != p.pendingSession.value + ":" + role ::
              HistoryAt(Polled(p, ready, role, active).histories, k) == HistoryAt(p.histories, k)
  {
  }

  // ---------------------------------------------------------------- the panel itself

  class ChatPanel {
    var promise: Option<TaskId>
    var pendingTask: Option<TaskId>
    var pendingSession: Option<string>
    var appended: set<TaskId>
    var histories: Histories
    ghost var fetches: seq<TaskId>
    ghost var pushes: seq<TaskId>

    ghost function State(): Panel
      reads this
    {
      Panel(promise, pendingTask, pendingSession, appended, histories, fetches, pushes)
    }

    constructor ()
      ensures State() == FRESH
    {
      promise, pendingTask, pendingSession := None, None, None;
      appended, histories := {}, map[];
      fetches, pushes := [], [];
    }

    /** The filtered `max_by`, as a scan. */
    method FindTask(session: string, tasks: seq<TaskInfo>) returns (best: Option<TaskInfo>)
      ensures best == Pick(tasks, session, appended)
    {
      best := None;
      for i := 0 to |tasks|
        invariant best == Pick(tasks[..i], session, appended)
      {
        assert tasks[..i + 1][..i] == tasks[..i];
        var t := tasks[i];
        if Eligible(t, session, appended) && (best.None? || NotLater(best.value, t)) {
          best := Some(t);
        }
      }
      assert tasks[..|tasks|] == tasks;
    }

    method MaybeStartBackfill(session: string, tasks: seq<TaskInfo>)
      modifies this
      ensures State() == Started(old(State()), session, tasks)
      ensures promise != old(promise) ==> exists t | t in tasks ::
                && promise == Some(t.id) && t.threadId == Some(session) && t.name == "foreground_chat_supervisor"
                && t.id !in old(appended)
    {
      if promise.Some? {
        return;
      }
      var task := FindTask(session, tasks);
      PickIsLatest(tasks, session, appended);
      if task.None? {
        return;
      }
      fetches := fetches + [task.value.id];
      pendingTask := Some(task.value.id);
      pendingSession := Some(session);
      promise := Some(task.value.id);
    }

    method PushMessage(key: string, m: Message)
      modifies `histories
      ensures histories == Pushed(old(histories), key, m)
    {
      var history := HistoryAt(histories, key);
      history := history + [m.(content := CompactText(m.content))];
      if |history| > MAX_CHAT_MESSAGES {
        history := history[|history| - MAX_CHAT_MESSAGES..];
      }
      histories := histories[key := history];
    }

    method HistoryContains(key: string, content: string) returns (found: bool)
      ensures found == Contains(histories, key, content)
      ensures found <==> exists m | m in HistoryAt(histories, key) :: m.role == "agent" && Trim(m.content) == Trim(content)
    {
      var history := HistoryAt(histories, key);
      for i := 0 to |history|
        invariant forall j | 0 <= j < i :: !(history[j].role == "agent" && Trim(history[j].content) == Trim(content))
      {
        if history[i].role == "agent" && Trim(history[i].content) == Trim(content) {
          assert history[i] in history;
          return true;
        }
      }
      found := false;
    }

    method PushUnlessSeen(key: string, text: string, id: TaskId)
      modifies `histories, `pushes
      ensures if Contains(old(histories), key, text) then histories == old(histories) && pushes == old(pushes)
              else histories == Pushed(old(histories), key, Message("agent", text, Some(id)))
                   && pushes == old(pushes) + [id]
    {
      var seen := HistoryContains(key, text);
      if !seen {
        PushMessage(key, Message("agent", text, Some(id)));
        pushes := pushes + [id];
      }
    }

    method PollBackfill(ready: Option<Fetched>, role: string, activeSession: string)
      modifies this
      ensures State() == Polled(old(State()), ready, role, activeSession)
      ensures old(pendingSession).Some? ==>
                forall k | k != old(pendingSession).value + ":" + role ::
                  HistoryAt(histories, k) == HistoryAt(old(histories), k)
    {
      if pendingSession.Some? {
        PollTouchesOne(State(), ready, role, activeSession);
      }
      if promise.None? || ready.None? {
        return;
      }
      var taskId, sessionId := pendingTask, pendingSession;
      promise, pendingTask, pendingSession := None, None, None;
      match ready.value
      case Output(outputTask, thread, text) =>
        var id := if taskId.Some? then taskId.value else outputTask;
        var session := if sessionId.Some? then sessionId.value else if thread.Some? then thread.value else activeSession;
        if text.Some? {
          PushUnlessSeen(HistoryKey(session, role), text.value, id);
        }
        appended := appended + {id};
      case FetchError(_) =>
        if taskId.Some? {
          appended := appended + {taskId.value};
        }
    }
  }
}
