/** Runs of the send-later queue: HTTP requests, the dispatcher's ticks, SMTP, crashes and restarts interleave
    freely, one database statement or one claim transaction at a time.  The log of submissions and the counts of
    resets are what the theorems speak of; the program does not keep them. */
module SendProtocol {
  import opened Options
  import opened Clock
  import opened ScheduledSend

  const BATCH: nat := 20
  const STALE_AFTER: int := 300 * SECOND

  datatype Submission = Submission(id: nat, owner: string, msg: Message)

  /** `queue` holds the claimed rows not yet dealt with; `answered` is SMTP's answer for the first of them, once
      it has been submitted and until its outcome is recorded. */
  datatype State = State(
    rows: Table, up: bool, queue: seq<Claim>, answered: Option<bool>, log: seq<Submission>, resets: seq<nat>)

  datatype Event =
    | Create(id: nat, owner: string, msg: Message, at: Time, now: Time)
    | Cancel(canceler: string, target: nat)
    | Tick(tickNow: Time, ids: seq<nat>, reported: bool)  // a commit may go unreported: the rows are then in no queue
    | NoCredential(credentialError: string, recorded: bool)
    | Submit(accepted: bool)
    | Record(sendError: string, written: bool)            // the mark may fail: the row then stays `sending`
    | Crash
    | Restart(restartNow: Time, swept: bool, stale: seq<nat>)

  /** The ids a sweep at start-up resets, each once. */
  ghost predicate StaleSelection(rows: Table, olderThan: Time, stale: seq<nat>) {
    && (forall k :: 0 <= k < |stale| ==> stale[k] in rows && Stale(rows[stale[k]], olderThan))
    && (forall j, k :: 0 <= j < k < |stale| ==> stale[j] != stale[k])
    && (forall id :: id in rows && Stale(rows[id], olderThan) ==> id in stale)
  }

  ghost predicate Enabled(s: State, e: Event) {
    match e
    case Create(id, owner, msg, at, now) => id !in s.rows
    case Cancel(owner, id) => true
    case Tick(now, ids, reported) => s.up && s.queue == [] && DueSelection(s.rows, now, BATCH, ids)
    case NoCredential(err, recorded) => s.queue != [] && s.answered.None?
    case Submit(accepted) => s.queue != [] && s.answered.None?
    case Record(err, written) => s.queue != [] && s.answered.Some?
    case Crash => s.up
    case Restart(now, swept, stale) =>
      !s.up && (if swept then StaleSelection(s.rows, now - STALE_AFTER, stale) else stale == [])
  }

  function Apply(s: State, e: Event): State {
    match e
    case Create(id, owner, msg, at, now) => s.(rows := Inserted(s.rows, id, owner, msg, at, now))
    case Cancel(owner, id) => s.(rows := CancelRow(s.rows, owner, id))
    case Tick(now, ids, reported) =>
      s.(rows := Claimed(s.rows, ids, now),
         queue := if reported && forall k :: 0 <= k < |ids| ==> ids[k] in s.rows then Claims(s.rows, ids, now) else [])
    case NoCredential(err, recorded) =>
      if s.queue == [] then s
      else s.(rows := if recorded then Marked(s.rows, s.queue[0].id, false, err) else s.rows, queue := s.queue[1..])
    case Submit(accepted) =>
      if s.queue == [] then s
      else
        var row := s.queue[0].row;
        s.(answered := Some(accepted), log := s.log + [Submission(s.queue[0].id, row.owner, row.msg)])
    case Record(err, written) =>
      if s.queue == [] || s.answered.None? then s
      else s.(rows := if written then Marked(s.rows, s.queue[0].id, s.answered.value, err) else s.rows,
              queue := s.queue[1..], answered := None)
    case Crash => s.(up := false, queue := [], answered := None)
    case Restart(now, swept, stale) =>
      s.(rows := if swept then Restored(s.rows, now - STALE_AFTER) else s.rows, up := true, resets := s.resets + stale)
  }

  ghost predicate Legal(s: State, events: seq<Event>)
    decreases |events|
  {
    events != [] ==> Enabled(s, events[0]) && Legal(Apply(s, events[0]), events[1..])
  }

  function After(s: State, events: seq<Event>): State
    decreases |events|
  {
    if events == [] then s else After(Apply(s, events[0]), events[1..])
  }

  const EMPTY: State := State(map[], true, [], None, [], [])

  /** How often a row was submitted. */
  function Submissions(log: seq<Submission>, id: nat): nat {
    if log == [] then 0 else Submissions(log[..|log| - 1], id) + if log[|log| - 1].id == id then 1 else 0
  }

  /** How often a row was reset to `pending`. */
  function Resets(resets: seq<nat>, id: nat): nat {
    if resets == [] then 0 else Resets(resets[..|resets| - 1], id) + if resets[|resets| - 1] == id then 1 else 0
  }

  // ---------------------------------------------------------------------------------------------
  // The invariant
  // ---------------------------------------------------------------------------------------------

  /** The row at the head of the queue has been submitted and its outcome is not yet recorded. */
  predicate HeadSubmitted(s: State, id: nat) {
    s.queue != [] && s.queue[0].id == id && s.answered.Some?
  }

  predicate Queued(queue: seq<Claim>, id: nat) {
    exists k :: 0 <= k < |queue| && queue[k].id == id
  }

  /** One submission is charged to a row unless it is certain that none is outstanding. */
  predicate Charged(s: State, id: nat) {
    && id in s.rows
    && s.rows[id].status != Pending && s.rows[id].status != Canceled
    && (Queued(s.queue, id) ==> HeadSubmitted(s, id))
  }

  /** Everything in flight is `sending`, exactly as claimed, and once only. */
  ghost predicate InFlightIsSending(s: State) {
    && (s.queue == [] ==> s.answered.None?)
    && (!s.up ==> s.queue == [])
    && (forall k :: 0 <= k < |s.queue| ==>
          s.queue[k].id in s.rows && s.rows[s.queue[k].id] == s.queue[k].row && s.queue[k].row.status == Sending)
    && (forall j, k :: 0 <= j < k < |s.queue| ==> s.queue[j].id != s.queue[k].id)
  }

  ghost predicate Budget(s: State, id: nat) {
    Submissions(s.log, id) <= Resets(s.resets, id) + if Charged(s, id) then 1 else 0
  }

  ghost predicate LogMatches(s: State) {
    forall k :: 0 <= k < |s.log| ==>
      s.log[k].id in s.rows && s.rows[s.log[k].id].owner == s.log[k].owner && s.rows[s.log[k].id].msg == s.log[k].msg
  }

  ghost predicate Inv(s: State) {
    InFlightIsSending(s) && LogMatches(s) && forall id :: Budget(s, id)
  }

  lemma {:induction false} ResetsAppend(resets: seq<nat>, stale: seq<nat>, id: nat)
    requires forall j, k :: 0 <= j < k < |stale| ==> stale[j] != stale[k]
    ensures Resets(resets + stale, id) == Resets(resets, id) + if id in stale then 1 else 0
  {
    if stale == [] {
      assert resets + stale == resets;
    } else {
      var front, last := stale[..|stale| - 1], stale[|stale| - 1];
      assert (resets + stale)[..|resets + stale| - 1] == resets + front;
      assert stale == front + [last];
      ResetsAppend(resets, front, id);
    }
  }

  lemma SubmissionsAppend(log: seq<Submission>, s: Submission, id: nat)
    ensures Submissions(log + [s], id) == Submissions(log, id) + if s.id == id then 1 else 0
  {
    assert (log + [s])[..|log|] == log;
  }

  lemma InFlightStep(s: State, e: Event)
    requires InFlightIsSending(s) && Enabled(s, e)
    ensures InFlightIsSending(Apply(s, e))
  {
  }

  lemma LogStep(s: State, e: Event)
    requires InFlightIsSending(s) && LogMatches(s) && Enabled(s, e)
    ensures LogMatches(Apply(s, e))
  {
  }

  lemma QueuedTail(queue: seq<Claim>, id: nat)
    requires queue != []
    ensures Queued(queue, id) <==> queue[0].id == id || Queued(queue[1..], id)
  {
    if Queued(queue, id) && queue[0].id != id {
      var k :| 0 <= k < |queue| && queue[k].id == id;
      assert queue[1..][k - 1].id == id;
    }
    if Queued(queue[1..], id) {
      var k :| 0 <= k < |queue[1..]| && queue[1..][k].id == id;
      assert queue[k + 1].id == id;
    }
    if queue[0].id == id {
      assert Queued(queue, id);
    }
  }

  lemma QueuedClaims(rows: Table, ids: seq<nat>, now: Time, id: nat)
    requires forall k :: 0 <= k < |ids| ==> ids[k] in rows
    ensures Queued(Claims(rows, ids, now), id) <==> id in ids
  {
    var claims := Claims(rows, ids, now);
    if id in ids {
      var k :| 0 <= k < |ids| && ids[k] == id;
      assert claims[k].id == id;
    }
  }

  lemma BudgetTick(s: State, now: Time, ids: seq<nat>, reported: bool, id: nat)
    requires InFlightIsSending(s) && Enabled(s, Tick(now, ids, reported)) && Budget(s, id)
    ensures Budget(Apply(s, Tick(now, ids, reported)), id)
  {
    QueuedClaims(s.rows, ids, now, id);
  }

  lemma BudgetSubmit(s: State, accepted: bool, id: nat)
    requires InFlightIsSending(s) && Enabled(s, Submit(accepted)) && Budget(s, id)
    ensures Budget(Apply(s, Submit(accepted)), id)
  {
    SubmissionsAppend(s.log, Submission(s.queue[0].id, s.queue[0].row.owner, s.queue[0].row.msg), id);
    QueuedTail(s.queue, id);
  }

  lemma BudgetDone(s: State, e: Event, id: nat)
    requires InFlightIsSending(s) && Enabled(s, e) && Budget(s, id)
    requires e.NoCredential? || e.Record?
    ensures Budget(Apply(s, e), id)
  {
    QueuedTail(s.queue, id);
  }

  lemma BudgetRestart(s: State, now: Time, swept: bool, stale: seq<nat>, id: nat)
    requires InFlightIsSending(s) && Enabled(s, Restart(now, swept, stale)) && Budget(s, id)
    ensures Budget(Apply(s, Restart(now, swept, stale)), id)
  {
    ResetsAppend(s.resets, stale, id);
  }

  lemma BudgetRequest(s: State, e: Event, id: nat)
    requires InFlightIsSending(s) && Enabled(s, e) && Budget(s, id)
    requires e.Create? || e.Cancel? || e.Crash?
    ensures Budget(Apply(s, e), id)
  {
  }

  lemma BudgetStep(s: State, e: Event, id: nat)
    requires InFlightIsSending(s) && Enabled(s, e) && Budget(s, id)
    ensures Budget(Apply(s, e), id)
  {
    hide InFlightIsSending, Enabled, Apply, Budget;
    match e
    case Tick(now, ids, reported) => BudgetTick(s, now, ids, reported, id);
    case Submit(accepted) => BudgetSubmit(s, accepted, id);
    case NoCredential(_, _) => BudgetDone(s, e, id);
    case Record(_, _) => BudgetDone(s, e, id);
    case Restart(now, swept, stale) => BudgetRestart(s, now, swept, stale, id);
    case _ => BudgetRequest(s, e, id);
  }

  lemma InvStep(s: State, e: Event)
    requires Inv(s) && Enabled(s, e)
    ensures Inv(Apply(s, e))
  {
    InFlightStep(s, e);
    LogStep(s, e);
    forall id ensures Budget(Apply(s, e), id) {
      BudgetStep(s, e, id);
    }
  }

  lemma {:induction false} InvRun(s: State, events: seq<Event>)
    requires Inv(s) && Legal(s, events)
    ensures Inv(After(s, events))
    decreases |events|
  {
    if events != [] {
      InvStep(s, events[0]);
      InvRun(Apply(s, events[0]), events[1..]);
    }
  }

  // ---------------------------------------------------------------------------------------------
  // Safety of every run
  // ---------------------------------------------------------------------------------------------

  /** Over every run a row is submitted at most once more than it was reset, and what is submitted is what was
      queued, for the owner who queued it. */
  lemma SubmittedAtMostOncePerReset(events: seq<Event>, id: nat)
    requires Legal(EMPTY, events)
    ensures var s := After(EMPTY, events);
            && Submissions(s.log, id) <= 1 + Resets(s.resets, id)
            && (id in s.rows && s.rows[id].status in {Pending, Canceled} ==>
                  Submissions(s.log, id) <= Resets(s.resets, id))
            && LogMatches(s)
  {
    InvRun(EMPTY, events);
    assert Budget(After(EMPTY, events), id);
  }

  predicate Final(status: Status) {
    status.Sent? || status.Failed? || status.Canceled?
  }

  lemma FinalStep(s: State, e: Event, id: nat)
    requires Inv(s) && Enabled(s, e)
    requires id in s.rows && Final(s.rows[id].status)
    ensures id in Apply(s, e).rows && Apply(s, e).rows[id] == s.rows[id]
    ensures Submissions(Apply(s, e).log, id) == Submissions(s.log, id)
  {
    if e.Submit? {
      SubmissionsAppend(s.log, Submission(s.queue[0].id, s.queue[0].row.owner, s.queue[0].row.msg), id);
    }
  }

  /** Once `sent`, `failed` or `canceled` is recorded the row never changes again and is never submitted again,
      although the marks are not guarded by a status. */
  lemma {:induction false} FinalForever(s: State, events: seq<Event>, id: nat)
    requires Inv(s) && Legal(s, events)
    requires id in s.rows && Final(s.rows[id].status)
    ensures id in After(s, events).rows && After(s, events).rows[id] == s.rows[id]
    ensures Submissions(After(s, events).log, id) == Submissions(s.log, id)
    decreases |events|
  {
    if events != [] {
      FinalStep(s, events[0], id);
      InvStep(s, events[0]);
      FinalForever(Apply(s, events[0]), events[1..], id);
    }
  }

  lemma {:induction false} AfterConcat(s: State, a: seq<Event>, b: seq<Event>)
    ensures After(s, a + b) == After(After(s, a), b)
    ensures Legal(s, a + b) <==> Legal(s, a) && Legal(After(s, a), b)
    decreases |a|
  {
    if a == [] {
      assert a + b == b;
    } else {
      assert (a + b)[0] == a[0] && (a + b)[1..] == a[1..] + b;
      AfterConcat(Apply(s, a[0]), a[1..], b);
    }
  }

  /** A cancel that succeeds is final: whatever ran before and whatever runs after, the row stays canceled and is
      not submitted from then on; if it had never been reset, it was never submitted at all. */
  lemma CancelIsFinal(before: seq<Event>, owner: string, id: nat, after: seq<Event>)
    requires Legal(EMPTY, before + [Cancel(owner, id)] + after)
    requires Cancelable(After(EMPTY, before).rows, owner, id)
    ensures var mid, end := After(EMPTY, before), After(EMPTY, before + [Cancel(owner, id)] + after);
            && id in end.rows && end.rows[id] == mid.rows[id].(status := Canceled)
            && Submissions(end.log, id) == Submissions(mid.log, id) <= Resets(mid.resets, id)
  {
    var e := Cancel(owner, id);
    AfterConcat(EMPTY, before + [e], after);
    AfterConcat(EMPTY, before, [e]);
    var mid := After(EMPTY, before);
    assert [e][1..] == [] && After(mid, [e]) == Apply(mid, e);
    InvRun(EMPTY, before);
    assert Budget(mid, id);
    InvStep(mid, e);
    FinalForever(Apply(mid, e), after, id);
  }

  lemma ContentStep(s: State, e: Event, id: nat)
    requires Enabled(s, e) && id in s.rows
    ensures id in Apply(s, e).rows
    ensures var a, b := s.rows[id], Apply(s, e).rows[id];
            b.owner == a.owner && b.msg == a.msg && b.scheduledAt == a.scheduledAt && b.createdAt == a.createdAt
  {
  }

  /** Owner, content and instant of a row never change. */
  lemma {:induction false} ContentNeverChanges(s: State, events: seq<Event>, id: nat)
    requires Legal(s, events) && id in s.rows
    ensures id in After(s, events).rows
    ensures var a, b := s.rows[id], After(s, events).rows[id];
            b.owner == a.owner && b.msg == a.msg && b.scheduledAt == a.scheduledAt && b.createdAt == a.createdAt
    decreases |events|
  {
    if events != [] {
      ContentStep(s, events[0], id);
      ContentNeverChanges(Apply(s, events[0]), events[1..], id);
    }
  }

  ghost predicate NoCrash(events: seq<Event>) {
    forall k :: 0 <= k < |events| ==> !events[k].Crash?
  }

  lemma {:induction false} NoCrashNoReset(s: State, events: seq<Event>)
    requires Legal(s, events) && NoCrash(events) && s.up
    ensures After(s, events).resets == s.resets
    decreases |events|
  {
    if events != [] {
      assert forall k :: 0 <= k < |events[1..]| ==> events[1..][k] == events[k + 1];
      NoCrashNoReset(Apply(s, events[0]), events[1..]);
    }
  }

  /** Without a crash every row is submitted at most once. */
  lemma AtMostOnceWithoutCrash(events: seq<Event>, id: nat)
    requires Legal(EMPTY, events) && NoCrash(events)
    ensures Submissions(After(EMPTY, events).log, id) <= 1
  {
    NoCrashNoReset(EMPTY, events);
    SubmittedAtMostOncePerReset(events, id);
  }

  // ---------------------------------------------------------------------------------------------
  // What is stored, sent and recorded
  // ---------------------------------------------------------------------------------------------

  /** A message is stored and submitted as it was handed in: recipients, blind copies and text, for its owner. */
  lemma SentAsHandedIn(s: State, id: nat, owner: string, msg: Message, at: Time, now: Time, events: seq<Event>)
    requires Inv(s) && Legal(s, [Create(id, owner, msg, at, now)] + events)
    ensures var end := After(s, [Create(id, owner, msg, at, now)] + events);
            && id in end.rows && end.rows[id].owner == owner && end.rows[id].msg == msg
            && forall k :: 0 <= k < |end.log| && end.log[k].id == id ==> end.log[k] == Submission(id, owner, msg)
  {
    hide Inv, Legal, After;
    var e := Create(id, owner, msg, at, now);
    AfterFirst(s, e, events);
    InvStep(s, e);
    ContentNeverChanges(Apply(s, e), events, id);
    InvRun(Apply(s, e), events);
    LogOfInv(After(Apply(s, e), events));
  }

  lemma AfterFirst(s: State, e: Event, events: seq<Event>)
    requires Legal(s, [e] + events)
    ensures Enabled(s, e) && Legal(Apply(s, e), events) && After(s, [e] + events) == After(Apply(s, e), events)
  {
    assert ([e] + events)[1..] == events;
  }

  lemma LogOfInv(s: State)
    requires Inv(s)
    ensures LogMatches(s)
  {
  }

  /** A new row waits for its instant, in whole seconds, with no claim and no error. */
  lemma CreatedPending(s: State, id: nat, owner: string, msg: Message, at: Time, now: Time)
    ensures var row := Apply(s, Create(id, owner, msg, at, now)).rows[id];
            && row.status == Pending && row.scheduledAt == Unix(at) && row.createdAt == Unix(now)
            && row.claimedAt == 0 && row.lastError == ""
    ensures forall other :: other in s.rows && other != id ==>
              other in Apply(s, Create(id, owner, msg, at, now)).rows
              && Apply(s, Create(id, owner, msg, at, now)).rows[other] == s.rows[other]
  {
  }

  /** An accepted message ends `sent`, a refused one `failed` with the error, if the mark is written. */
  lemma OutcomeIsRecorded(s: State, accepted: bool, err: string)
    requires InFlightIsSending(s) && Enabled(s, Submit(accepted))
    ensures var id, end := s.queue[0].id, After(s, [Submit(accepted), Record(err, true)]);
            && Legal(s, [Submit(accepted), Record(err, true)])
            && end.rows.Keys == s.rows.Keys
            && (accepted ==> end.rows[id] == s.rows[id].(status := Sent))
            && (!accepted ==> end.rows[id] == s.rows[id].(status := Failed, lastError := err))
            && (forall other :: other in s.rows && other != id ==> end.rows[other] == s.rows[other])
            && end.log == s.log + [Submission(id, s.rows[id].owner, s.rows[id].msg)]
  {
    var submit, record := Submit(accepted), Record(err, true);
    assert [submit, record] == [submit] + [record] && [submit][1..] == [] && [record][1..] == [];
    AfterConcat(s, [submit], [record]);
    assert After(s, [submit]) == Apply(s, submit);
    assert After(Apply(s, submit), [record]) == Apply(Apply(s, submit), record);
  }

  /** Without a credential nothing is sent and the row ends `failed` with the error; a lost mark changes no row. */
  lemma NoCredentialIsRecorded(s: State, err: string)
    requires InFlightIsSending(s) && Enabled(s, NoCredential(err, true))
    ensures var id, end := s.queue[0].id, Apply(s, NoCredential(err, true));
            && end.rows == s.rows[id := s.rows[id].(status := Failed, lastError := err)]
            && end.log == s.log
    ensures Apply(s, NoCredential(err, false)).rows == s.rows
  {
  }

  /** A cancel touches the row it names, if that is the owner's and pending, and no other. */
  lemma CancelTouches(s: State, owner: string, id: nat, other: nat)
    requires other in s.rows
    ensures other in Apply(s, Cancel(owner, id)).rows
    ensures Apply(s, Cancel(owner, id)).rows[other]
         == if other == id && s.rows[id].owner == owner && s.rows[id].status == Pending
            then s.rows[id].(status := Canceled) else s.rows[other]
  {
  }

  /** A start-up sweep leaves a row claimed within the last five minutes, and every row that is not `sending`. */
  lemma SweepLeaves(s: State, now: Time, stale: seq<nat>, id: nat, claimed: Time)
    requires id in s.rows && claimed > ZERO_TIME
    requires s.rows[id].status != Sending
          || (s.rows[id].claimedAt == Unix(claimed) && now <= claimed + 300_000_000_000)
    ensures id in Apply(s, Restart(now, true, stale)).rows
    ensures Apply(s, Restart(now, true, stale)).rows[id] == s.rows[id]
  {
  }

  /** A `sending` row claimed a second longer ago is pending after it, and otherwise as it was. */
  lemma SweepRestores(s: State, now: Time, stale: seq<nat>, id: nat, claimed: Time)
    requires id in s.rows && s.rows[id].status == Sending
    requires claimed >= SECOND && s.rows[id].claimedAt == Unix(claimed) && now >= claimed + 301_000_000_000
    ensures id in Apply(s, Restart(now, true, stale)).rows
    ensures Apply(s, Restart(now, true, stale)).rows[id] == s.rows[id].(status := Pending)
  {
  }
}
