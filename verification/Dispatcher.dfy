/** The dispatcher and the choice of the send time in backend/internal/api/webmail_scheduled.go. */
module Dispatcher {
  import opened Options
  import opened Clock
  import opened ScheduledSend
  import opened SendProtocol

  /** The instant a message is queued for: the undo window by default, an explicit instant if it lies ahead. */
  function ChooseTime(now: Time, undoWindow: int, sendAt: Option<Time>): (at: Option<Time>)
    requires undoWindow > 0
    ensures at.Some? ==> at.value > now
    ensures at.None? <==> sendAt.Some? && sendAt.value <= now
    ensures at.Some? ==> at.value == if sendAt.Some? then sendAt.value else now + undoWindow
  {
    if sendAt.None? then Some(now + undoWindow)
    else if sendAt.value > now then sendAt
    else None
  }

  /** What the outside world does with one row: whether a credential is found, whether SMTP accepts the message,
      and whether the database records the outcome. */
  datatype World = World(credential: bool, accepted: bool, recorded: bool, error: string)

  /** What must happen to one row in that world. */
  function RowEvents(world: World): seq<Event> {
    if !world.credential then [NoCredential(world.error, world.recorded)]
    else [Submit(world.accepted), Record(world.error, world.recorded)]
  }

  /** What must happen to a batch: each row in turn, none skipped because of another. */
  function BatchEvents(ids: seq<nat>, world: nat -> World): seq<Event> {
    if ids == [] then [] else BatchEvents(ids[..|ids| - 1], world) + RowEvents(world(ids[|ids| - 1]))
  }

  /** A tick and what follows for the rows `ids` lead from one state to another. */
  ghost predicate Reaches(start: State, tick: Event, ids: seq<nat>, world: nat -> World, end: State) {
    var events := [tick] + BatchEvents(ids, world);
    Legal(start, events) && After(start, events) == end
  }

  lemma BatchStart(start: State, tick: Event, ids: seq<nat>, world: nat -> World)
    requires Enabled(start, tick)
    ensures Reaches(start, tick, ids[..0], world, Apply(start, tick))
  {
    var events := [tick];
    assert ids[..0] == [] && events + [] == events && events[1..] == [];
  }

  lemma BatchStep(start: State, tick: Event, ids: seq<nat>, k: nat, world: nat -> World, mid: State, end: State)
    requires k < |ids| && Reaches(start, tick, ids[..k], world, mid)
    requires Legal(mid, RowEvents(world(ids[k]))) && After(mid, RowEvents(world(ids[k]))) == end
    ensures Reaches(start, tick, ids[..k + 1], world, end)
  {
    hide Legal, After;
    var done, more := BatchEvents(ids[..k], world), RowEvents(world(ids[k]));
    assert ids[..k + 1][..k] == ids[..k];
    AfterConcat(start, [tick] + done, more);
    assert [tick] + done + more == [tick] + BatchEvents(ids[..k + 1], world);
  }

  lemma BatchEnd(start: State, tick: Event, ids: seq<nat>, world: nat -> World, end: State)
    requires Reaches(start, tick, ids[..|ids|], world, end)
    ensures Legal(start, [tick] + BatchEvents(ids, world)) && After(start, [tick] + BatchEvents(ids, world)) == end
  {
    assert ids[..|ids|] == ids;
  }

  class Server {
    const store: Store
    ghost var log: seq<Submission>

    constructor (store: Store)
      ensures this.store == store && log == []
    {
      this.store := store;
      log := [];
    }

    /** Claims a batch of due rows and deals with each in turn.  The events it goes through form a legal run of
        the protocol, from the table as it was to the table as it is, with nothing left in flight. */
    method DispatchScheduledSends(now: Time, world: nat -> World) returns (ghost events: seq<Event>, handled: nat)
      requires store.Valid()
      modifies this, store`rows
      ensures store.Valid()
      ensures Legal(State(old(store.rows), true, [], None, old(log), []), events)
      ensures After(State(old(store.rows), true, [], None, old(log), []), events)
           == State(store.rows, true, [], None, log, [])
      ensures events != [] && events[0].Tick? && events[0].tickNow == now && events[0].reported
      ensures events[1..] == BatchEvents(events[0].ids, world) && handled == |events[0].ids|
    {
      ghost var start := State(store.rows, true, [], None, log, []);
      var claimed, ids := store.ClaimDue(now, BATCH);
      ghost var tick := Tick(now, ids, true);
      assert forall k :: 0 <= k < |claimed| ==> claimed[k].id == ids[k];
      BatchStart(start, tick, ids, world);
      assert Apply(start, tick) == State(store.rows, true, claimed[0..], None, log, []);
      hide Reaches, Apply, Claimed, Claims, DueSelection, Legal, After;
      ghost var mid := State(store.rows, true, claimed[0..], None, log, []);
      for k := 0 to |claimed|
        invariant store.Valid()
        invariant mid == State(store.rows, true, claimed[k..], None, log, [])
        invariant Reaches(start, tick, ids[..k], world, mid)
      {
        assert claimed[k..] == [claimed[k]] + claimed[k + 1..];
        ghost var more := DispatchOne(claimed[k], claimed[k + 1..], world(claimed[k].id));
        ghost var next := State(store.rows, true, claimed[k + 1..], None, log, []);
        BatchStep(start, tick, ids, k, world, mid, next);
        mid := next;
      }
      assert claimed[|claimed|..] == [];
      BatchEnd(start, tick, ids, world, mid);
      events := [tick] + BatchEvents(ids, world);
      handled := |claimed|;
    }

    /** One row: no credential, or a submission and then its mark. */
    method DispatchOne(claim: Claim, ghost rest: seq<Claim>, world: World) returns (ghost events: seq<Event>)
      requires store.Valid()
      modifies this, store`rows
      ensures store.Valid()
      ensures var s := State(old(store.rows), true, [claim] + rest, None, old(log), []);
              Legal(s, events) && After(s, events) == State(store.rows, true, rest, None, log, [])
      ensures events == RowEvents(world)
      ensures log == old(log) + if world.credential then [Submission(claim.id, claim.row.owner, claim.row.msg)] else []
      ensures !world.recorded ==> store.rows == old(store.rows)
      ensures forall id :: id in store.rows <==> id in old(store.rows)
      ensures forall id :: id in store.rows && id != claim.id ==> store.rows[id] == old(store.rows)[id]
      ensures claim.id in store.rows && world.recorded ==>
                var row := store.rows[claim.id];
                && row.status == (if world.credential && world.accepted then Sent else Failed)
                && (row.status == Failed ==> row.lastError == world.error)
    {
      ghost var queue := [claim] + rest;
      assert queue[1..] == rest;
      if !world.credential {
        if world.recorded {
          store.MarkFailed(claim.id, world.error);
        }
        events := [NoCredential(world.error, world.recorded)];
        assert events[1..] == [];
        return;
      }
      log := log + [Submission(claim.id, claim.row.owner, claim.row.msg)];
      if world.recorded {
        if world.accepted {
          store.MarkSent(claim.id);
        } else {
          store.MarkFailed(claim.id, world.error);
        }
      }
      events := [Submit(world.accepted), Record(world.error, world.recorded)];
      ghost var mark := [Record(world.error, world.recorded)];
      assert events[1..] == mark && mark[1..] == [];
      ghost var s := State(old(store.rows), true, queue, None, old(log), []);
      ghost var mid := Apply(s, events[0]);
      assert After(mid, mark) == Apply(mid, mark[0]);
      assert Legal(mid, mark);
    }
  }

  // ---------------------------------------------------------------------------------------------
  // How long a due row can wait
  // ---------------------------------------------------------------------------------------------

  /** The pending rows that may be claimed before row `id`. */
  function Ahead(rows: Table, id: nat): set<nat>
    requires id in rows
  {
    set other | other in rows && other != id && rows[other].status == Pending
                && rows[other].scheduledAt <= rows[id].scheduledAt
  }

  /** The event puts no pending row at or before second `at`: a row created, and every row a start-up sweep restores,
      is scheduled later. */
  ghost predicate LaterOnly(s: State, e: Event, at: int) {
    && (e.Create? ==> Unix(e.at) > at)
    && (e.Restart? ==> forall id :: id in e.stale && id in s.rows ==> s.rows[id].scheduledAt > at)
  }

  /** No event of the run does. */
  ghost predicate NoneJoins(s: State, events: seq<Event>, at: int)
    decreases |events|
  {
    events != [] ==> LaterOnly(s, events[0], at) && NoneJoins(Apply(s, events[0]), events[1..], at)
  }

  /** The ticks of the run at or after second `at`. */
  function TicksFrom(events: seq<Event>, at: int): nat {
    if events == [] then 0
    else (if events[0].Tick? && Unix(events[0].tickNow) >= at then 1 else 0) + TicksFrom(events[1..], at)
  }

  lemma AheadStep(s: State, e: Event, id: nat)
    requires Inv(s) && Enabled(s, e)
    requires id in s.rows && s.rows[id].status == Pending && LaterOnly(s, e, s.rows[id].scheduledAt)
    requires Apply(s, e).rows[id].status == Pending
    ensures Ahead(Apply(s, e).rows, id) <= Ahead(s.rows, id)
    ensures e.Tick? && Unix(e.tickNow) >= s.rows[id].scheduledAt ==>
              |Ahead(Apply(s, e).rows, id)| + BATCH <= |Ahead(s.rows, id)|
  {
    var t := Apply(s, e);
    if e.Tick? && Unix(e.tickNow) >= s.rows[id].scheduledAt {
      AheadTick(s, e, id);
    }
  }

  lemma AheadTick(s: State, e: Event, id: nat)
    requires Enabled(s, e) && e.Tick?
    requires id in s.rows && s.rows[id].status == Pending && Unix(e.tickNow) >= s.rows[id].scheduledAt
    requires Apply(s, e).rows[id].status == Pending
    ensures |Ahead(Apply(s, e).rows, id)| + BATCH <= |Ahead(s.rows, id)|
  {
    var t, ids := Apply(s, e), e.ids;
    assert id !in ids;
    RangeSize(ids);
    assert Range(ids) <= Ahead(s.rows, id);
    assert Ahead(t.rows, id) <= Ahead(s.rows, id) - Range(ids);
    SubsetSize(Ahead(t.rows, id), Ahead(s.rows, id) - Range(ids));
  }

  lemma NeverBackToPending(s: State, e: Event, id: nat)
    requires Enabled(s, e) && id in s.rows && LaterOnly(s, e, s.rows[id].scheduledAt)
    ensures id in Apply(s, e).rows
    ensures Apply(s, e).rows[id].status == Pending ==> s.rows[id].status == Pending
  {
  }

  lemma {:induction false} PendingWasPending(s: State, events: seq<Event>, id: nat)
    requires Legal(s, events) && id in s.rows && NoneJoins(s, events, s.rows[id].scheduledAt)
    ensures id in After(s, events).rows
    ensures After(s, events).rows[id].status == Pending ==> s.rows[id].status == Pending
    decreases |events|
  {
    if events != [] {
      NeverBackToPending(s, events[0], id);
      ContentStep(s, events[0], id);
      PendingWasPending(Apply(s, events[0]), events[1..], id);
    }
  }

  /** A due row still pending has seen at most a twentieth as many ticks as there were rows ahead of it: with r
      rows ahead it leaves `pending` within r / 20 + 1 ticks. */
  lemma {:induction false} DueRowLeavesPending(s: State, events: seq<Event>, id: nat)
    requires Inv(s) && Legal(s, events)
    requires id in s.rows && NoneJoins(s, events, s.rows[id].scheduledAt)
    ensures id in After(s, events).rows
    ensures After(s, events).rows[id].status == Pending ==>
              TicksFrom(events, s.rows[id].scheduledAt) <= |Ahead(s.rows, id)| / 20
    decreases |events|
  {
    ContentNeverChanges(s, events, id);
    if events != [] && After(s, events).rows[id].status == Pending {
      var e, rest := events[0], events[1..];
      var t := Apply(s, e);
      ContentStep(s, e, id);
      PendingWasPending(t, rest, id);
      NeverBackToPending(s, e, id);
      InvStep(s, e);
      AheadStep(s, e, id);
      DueRowLeavesPending(t, rest, id);
      SubsetSize(Ahead(t.rows, id), Ahead(s.rows, id));
    }
  }

  /** The chosen instant and the truncation to seconds together: over any run, no queued message is claimed a second
      or more before the instant its sender chose, or before the end of the undo window if none was chosen. */
  lemma NotClaimedEarly(s: State, now: Time, undoWindow: int, sendAt: Option<Time>, id: nat, owner: string,
                        msg: Message, between: seq<Event>, tick: Time, ids: seq<nat>, reported: bool)
    requires undoWindow > 0 && now > ZERO_TIME && tick > ZERO_TIME
    requires ChooseTime(now, undoWindow, sendAt).Some?
    requires Legal(s, [Create(id, owner, msg, ChooseTime(now, undoWindow, sendAt).value, now)] + between
                      + [Tick(tick, ids, reported)])
    requires id in ids
    ensures tick > (if sendAt.Some? then sendAt.value else now + undoWindow) - SECOND
    ensures sendAt.Some? && sendAt.value % SECOND == 0 ==> tick >= sendAt.value
  {
    var at := ChooseTime(now, undoWindow, sendAt).value;
    var created := [Create(id, owner, msg, at, now)];
    var last := [Tick(tick, ids, reported)];
    AfterConcat(s, created + between, last);
    AfterConcat(s, created, between);
    var s1, s2 := After(s, created), After(s, created + between);
    assert created[1..] == [];
    assert s1 == Apply(s, created[0]);
    ContentNeverChanges(s1, between, id);
    assert Enabled(s2, last[0]);
    ClaimedLessThanASecondEarly(at, tick);
  }

  /** From the chosen instant on a message that still waits is due. */
  lemma DueFromItsInstant(s: State, now: Time, undoWindow: int, sendAt: Option<Time>, id: nat, owner: string,
                          msg: Message, between: seq<Event>, tick: Time)
    requires undoWindow > 0 && now > ZERO_TIME
    requires ChooseTime(now, undoWindow, sendAt).Some?
    requires Legal(s, [Create(id, owner, msg, ChooseTime(now, undoWindow, sendAt).value, now)] + between)
    requires tick >= if sendAt.Some? then sendAt.value else now + undoWindow
    ensures var end := After(s, [Create(id, owner, msg, ChooseTime(now, undoWindow, sendAt).value, now)] + between);
            && id in end.rows
            && (end.rows[id].status == Pending ==> Due(end.rows[id], tick))
  {
    hide Legal, After;
    var e := Create(id, owner, msg, ChooseTime(now, undoWindow, sendAt).value, now);
    AfterFirst(s, e, between);
    ContentNeverChanges(Apply(s, e), between, id);
  }
}
