/** How often a message can be submitted, from below: the bound of SendProtocol is reached, and a further submission
    can follow from a state exactly when its row says so. */
module Resubmission {
  import opened Options
  import opened Clock
  import opened ScheduledSend
  import opened SendProtocol

  // ---------------------------------------------------------------------------------------------
  // One submission per reset, and one
  // ---------------------------------------------------------------------------------------------

  /** A message is sent, the process stops before the mark, and the next start resets the row. */
  function LostMark(k: nat): seq<Event> {
    [Tick((1000 * k + 1) * SECOND, [1], true), Submit(true), Crash, Restart((1000 * k + 400) * SECOND, true, [1])]
  }

  function LostMarks(n: nat): seq<Event> {
    if n == 0 then [] else LostMarks(n - 1) + LostMark(n - 1)
  }

  /** Row 1 alone, pending and due from the first second on, with nothing in flight. */
  ghost predicate Alone(s: State) {
    && s.up && s.queue == [] && s.answered == None
    && s.rows.Keys == {1} && s.rows[1].status == Pending && s.rows[1].scheduledAt <= 1
  }

  lemma One(s: State, e: Event)
    requires Enabled(s, e)
    ensures Legal(s, [e]) && After(s, [e]) == Apply(s, e)
  {
    assert [e][1..] == [];
  }

  lemma RunTwo(s: State, a: Event, b: Event)
    requires Enabled(s, a) && Enabled(Apply(s, a), b)
    ensures Legal(s, [a, b]) && After(s, [a, b]) == Apply(Apply(s, a), b)
  {
    hide Legal, After, Apply, Enabled;
    One(s, a);
    One(Apply(s, a), b);
    AfterConcat(s, [a], [b]);
    assert [a, b] == [a] + [b];
  }

  /** A due row that is the only pending one is claimed and submitted. */
  lemma SubmitAlone(s: State, id: nat, now: Time)
    requires s.up && s.queue == [] && s.answered == None
    requires id in s.rows && Due(s.rows[id], now)
    requires forall other :: other in s.rows && s.rows[other].status == Pending ==> other == id
    ensures var run := [Tick(now, [id], true), Submit(true)];
            var row := Taken(s.rows[id], now);
            && Legal(s, run)
            && After(s, run) == State(Claimed(s.rows, [id], now), true, [Claim(id, row)], Some(true),
                                      s.log + [Submission(id, row.owner, row.msg)], s.resets)
  {
    var tick := Tick(now, [id], true);
    assert DueSelection(s.rows, now, BATCH, [id]);
    assert Claims(s.rows, [id], now) == [Claim(id, Taken(s.rows[id], now))];
    RunTwo(s, tick, Submit(true));
  }

  /** A crash and a start whose sweep finds the claim of row 1. */
  lemma CrashAndSweep(s: State, at: Time)
    requires s.up && s.rows.Keys == {1} && Stale(s.rows[1], at - STALE_AFTER)
    ensures var run := [Crash, Restart(at, true, [1])];
            && Legal(s, run)
            && After(s, run) == State(s.rows[1 := s.rows[1].(status := Pending)], true, [], None, s.log, s.resets + [1])
  {
    RunTwo(s, Crash, Restart(at, true, [1]));
    assert Restored(s.rows, at - STALE_AFTER) == s.rows[1 := s.rows[1].(status := Pending)];
  }

  lemma LostMarkAgain(s: State, k: nat)
    requires Alone(s)
    ensures Legal(s, LostMark(k)) && Alone(After(s, LostMark(k)))
    ensures Submissions(After(s, LostMark(k)).log, 1) == Submissions(s.log, 1) + 1
    ensures Resets(After(s, LostMark(k)).resets, 1) == Resets(s.resets, 1) + 1
  {
    hide Legal, After, Submissions, Resets;
    var now, at := (1000 * k + 1) * SECOND, (1000 * k + 400) * SECOND;
    var sent, swept := [Tick(now, [1], true), Submit(true)], [Crash, Restart(at, true, [1])];
    assert Unix(now) == 1000 * k + 1 && Unix(at - STALE_AFTER) == 1000 * k + 100;
    SubmitAlone(s, 1, now);
    SubmissionsAppend(s.log, Submission(1, s.rows[1].owner, s.rows[1].msg), 1);
    CrashAndSweep(After(s, sent), at);
    ResetsAppend(s.resets, [1], 1);
    AfterConcat(s, sent, swept);
    assert LostMark(k) == sent + swept;
  }

  lemma {:induction false} LostMarksRun(s: State, n: nat)
    requires Alone(s)
    ensures Legal(s, LostMarks(n)) && Alone(After(s, LostMarks(n)))
    ensures Submissions(After(s, LostMarks(n)).log, 1) == Submissions(s.log, 1) + n
    ensures Resets(After(s, LostMarks(n)).resets, 1) == Resets(s.resets, 1) + n
  {
    hide Alone, Submissions, Resets, LostMark;
    if n > 0 {
      LostMarksRun(s, n - 1);
      LostMarkAgain(After(s, LostMarks(n - 1)), n - 1);
      AfterConcat(s, LostMarks(n - 1), LostMark(n - 1));
    }
  }

  /** For every n, a run in which one row is reset n times and submitted n + 1 times: what is marked lost is sent
      again. */
  lemma ResubmittedAfterEveryReset(n: nat, owner: string, msg: Message) returns (run: seq<Event>)
    ensures run == [Create(1, owner, msg, SECOND, 0)] + LostMarks(n)
                 + [Tick((1000 * n + 1) * SECOND, [1], true), Submit(true)]
    ensures Legal(EMPTY, run)
    ensures Resets(After(EMPTY, run).resets, 1) == n && Submissions(After(EMPTY, run).log, 1) == n + 1
  {
    var create := [Create(1, owner, msg, SECOND, 0)];
    var last := [Tick((1000 * n + 1) * SECOND, [1], true), Submit(true)];
    run := create + LostMarks(n) + last;
    var s1 := Apply(EMPTY, create[0]);
    One(EMPTY, create[0]);
    assert Unix(SECOND) == 1 && Alone(s1);
    LostMarksRun(s1, n);
    var s2 := After(s1, LostMarks(n));
    SubmitAlone(s2, 1, (1000 * n + 1) * SECOND);
    SubmissionsAppend(s2.log, Submission(1, s2.rows[1].owner, s2.rows[1].msg), 1);
    AfterConcat(EMPTY, create, LostMarks(n));
    AfterConcat(EMPTY, create + LostMarks(n), last);
  }

  // ---------------------------------------------------------------------------------------------
  // When one more submission can follow
  // ---------------------------------------------------------------------------------------------

  /** What the row and the queue say: the id is free, or the row pending, or `sending` and either due to be submitted
      or with a claim that a start-up sweep can find. */
  predicate MayBeSubmitted(s: State, id: nat) {
    || id !in s.rows
    || s.rows[id].status == Pending
    || (s.rows[id].status == Sending
        && (s.rows[id].claimedAt > 0 || (Queued(s.queue, id) && !HeadSubmitted(s, id))))
  }

  lemma OverStep(s: State, e: Event, id: nat)
    requires Inv(s) && Enabled(s, e) && !MayBeSubmitted(s, id)
    ensures !MayBeSubmitted(Apply(s, e), id)
    ensures Submissions(Apply(s, e).log, id) == Submissions(s.log, id)
  {
    if Final(s.rows[id].status) {
      FinalStep(s, e, id);
    } else {
      OverWhileSending(s, e, id);
    }
  }

  lemma OverWhileSending(s: State, e: Event, id: nat)
    requires InFlightIsSending(s) && Enabled(s, e) && !MayBeSubmitted(s, id) && s.rows[id].status == Sending
    ensures !MayBeSubmitted(Apply(s, e), id)
    ensures Submissions(Apply(s, e).log, id) == Submissions(s.log, id)
  {
    hide Submissions;
    if s.queue != [] {
      QueuedTail(s.queue, id);
    }
    match e
    case Tick(now, ids, reported) =>
      QueuedClaims(s.rows, ids, now, id);
    case Submit(accepted) =>
      SubmissionsAppend(s.log, Submission(s.queue[0].id, s.queue[0].row.owner, s.queue[0].row.msg), id);
    case _ =>
  }

  lemma {:induction false} OverForever(s: State, run: seq<Event>, id: nat)
    requires Inv(s) && Legal(s, run) && !MayBeSubmitted(s, id)
    ensures Submissions(After(s, run).log, id) == Submissions(s.log, id)
    decreases |run|
  {
    if run != [] {
      OverStep(s, run[0], id);
      InvStep(s, run[0]);
      OverForever(Apply(s, run[0]), run[1..], id);
    }
  }

  /** A run after which the row has been submitted once more. */
  ghost predicate SubmitsOnceMore(s: State, run: seq<Event>, id: nat) {
    Legal(s, run) && Submissions(After(s, run).log, id) == Submissions(s.log, id) + 1
  }

  lemma Before(s: State, a: seq<Event>, b: seq<Event>, id: nat)
    requires Legal(s, a) && After(s, a).log == s.log && SubmitsOnceMore(After(s, a), b, id)
    ensures SubmitsOnceMore(s, a + b, id)
  {
    AfterConcat(s, a, b);
  }

  /** A row waiting in the queue: those ahead of it are dealt with first. */
  lemma {:induction false} FromQueue(s: State, id: nat) returns (run: seq<Event>)
    requires InFlightIsSending(s) && Queued(s.queue, id) && !HeadSubmitted(s, id)
    ensures SubmitsOnceMore(s, run, id)
    decreases |s.queue|
  {
    hide Submissions;
    var first := s.queue[0];
    if s.answered.None? && first.id == id {
      SubmissionsAppend(s.log, Submission(id, first.row.owner, first.row.msg), id);
      run := [Submit(true)];
      One(s, Submit(true));
    } else {
      var e := if s.answered.None? then NoCredential("", false) else Record("", false);
      One(s, e);
      InFlightStep(s, e);
      QueuedTail(s.queue, id);
      var rest := FromQueue(Apply(s, e), id);
      run := [e] + rest;
      Before(s, [e], rest, id);
    }
  }

  function PendingOthers(rows: Table, id: nat): set<nat> {
    set other | other in rows && other != id && rows[other].status == Pending
  }

  /** A pending row: the others are canceled, so that the next tick claims it. */
  lemma {:induction false} FromPending(s: State, id: nat) returns (run: seq<Event>)
    requires s.up && s.queue == [] && s.answered == None && id in s.rows && s.rows[id].status == Pending
    ensures SubmitsOnceMore(s, run, id)
    decreases |PendingOthers(s.rows, id)|
  {
    hide Submissions, Legal, After;
    var others := PendingOthers(s.rows, id);
    if other :| other in others {
      var cancel := Cancel(s.rows[other].owner, other);
      One(s, cancel);
      assert PendingOthers(Apply(s, cancel).rows, id) == others - {other};
      var rest := FromPending(Apply(s, cancel), id);
      run := [cancel] + rest;
      Before(s, [cancel], rest, id);
    } else {
      var now := (if s.rows[id].scheduledAt < 0 then 0 else s.rows[id].scheduledAt) * SECOND;
      assert forall other :: other in s.rows && s.rows[other].status == Pending ==> other == id || other in others;
      SubmitAlone(s, id, now);
      run := [Tick(now, [id], true), Submit(true)];
      SubmissionsAppend(s.log, Submission(id, s.rows[id].owner, s.rows[id].msg), id);
    }
  }

  lemma {:induction false} Listing(ids: set<nat>) returns (list: seq<nat>)
    ensures forall id :: id in list <==> id in ids
    ensures forall j, k :: 0 <= j < k < |list| ==> list[j] != list[k]
    decreases |ids|
  {
    list := [];
    if id :| id in ids {
      var rest := Listing(ids - {id});
      list := rest + [id];
      assert forall k :: 0 <= k < |rest| ==> rest[k] in rest;
    }
  }

  /** After a restart nothing is in flight, and the row is pending if it was, or if the sweep finds its claim. */
  lemma FromRestart(s: State, id: nat) returns (run: seq<Event>)
    requires !s.up && s.queue == [] && s.answered == None && id in s.rows
    requires s.rows[id].status == Pending || (s.rows[id].status == Sending && s.rows[id].claimedAt > 0)
    ensures SubmitsOnceMore(s, run, id)
  {
    hide Submissions, Legal, After;
    var now := (s.rows[id].claimedAt + 1) * SECOND + STALE_AFTER;
    var swept := s.rows[id].status == Sending;
    var stale := [];
    if swept {
      stale := Listing(set other | other in s.rows && Stale(s.rows[other], now - STALE_AFTER));
      assert forall k :: 0 <= k < |stale| ==> stale[k] in stale;
    }
    var e := Restart(now, swept, stale);
    assert swept ==> Unix(now - STALE_AFTER) == s.rows[id].claimedAt + 1;
    One(s, e);
    var rest := FromPending(Apply(s, e), id);
    run := [e] + rest;
    Before(s, [e], rest, id);
  }

  lemma FromRow(s: State, id: nat) returns (run: seq<Event>)
    requires InFlightIsSending(s) && id in s.rows && MayBeSubmitted(s, id)
    ensures SubmitsOnceMore(s, run, id)
  {
    hide Submissions, Legal, After, Queued;
    if s.rows[id].status == Sending && s.rows[id].claimedAt <= 0 {
      run := FromQueue(s, id);
    } else if s.up {
      One(s, Crash);
      var rest := FromRestart(Apply(s, Crash), id);
      run := [Crash] + rest;
      Before(s, [Crash], rest, id);
    } else {
      run := FromRestart(s, id);
    }
  }

  lemma FromState(s: State, id: nat) returns (run: seq<Event>)
    requires InFlightIsSending(s) && MayBeSubmitted(s, id)
    ensures SubmitsOnceMore(s, run, id)
  {
    hide Submissions, Legal, After, Queued;
    if id in s.rows {
      run := FromRow(s, id);
    } else {
      var e := Create(id, "", Message([], [], [], "", "", ""), 0, 0);
      One(s, e);
      InFlightStep(s, e);
      var rest := FromRow(Apply(s, e), id);
      run := [e] + rest;
      Before(s, [e], rest, id);
    }
  }

  /** A run in which the row is submitted again. */
  ghost predicate SubmitsAgain(s: State, run: seq<Event>, id: nat) {
    Legal(s, run) && Submissions(After(s, run).log, id) > Submissions(s.log, id)
  }

  /** From a reachable state some run submits the row again if and only if its row and the queue allow it. */
  lemma WhenOneMoreCanFollow(s: State, id: nat)
    requires Inv(s)
    ensures (exists run :: SubmitsAgain(s, run, id)) <==> MayBeSubmitted(s, id)
  {
    hide Inv, Legal, After, Submissions, MayBeSubmitted;
    if MayBeSubmitted(s, id) {
      InvParts(s);
      var run := FromState(s, id);
      assert SubmitsAgain(s, run, id);
    } else if run :| SubmitsAgain(s, run, id) {
      OverForever(s, run, id);
      assert false;
    }
  }

  lemma InvParts(s: State)
    requires Inv(s)
    ensures InFlightIsSending(s)
  {
  }
}
