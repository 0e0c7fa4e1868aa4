/** The send-later queue: the table of backend/internal/scheduledsend/store.go, statement by statement. */
module ScheduledSend {
  import opened Clock

  datatype Message = Message(
    to: seq<string>, cc: seq<string>, bcc: seq<string>, subject: string, text: string, html: string)

  datatype Status = Pending | Sending | Sent | Canceled | Failed

  datatype Row = Row(owner: string, msg: Message, scheduledAt: int, status: Status, createdAt: int, claimedAt: int,
                     lastError: string)

  type Table = map<nat, Row>

  /** A row handed to the dispatcher. */
  datatype Claim = Claim(id: nat, row: Row)

  // ---------------------------------------------------------------------------------------------
  // What each statement does to the table
  // ---------------------------------------------------------------------------------------------

  function Inserted(rows: Table, id: nat, owner: string, msg: Message, at: Time, now: Time): Table {
    rows[id := Row(owner, msg, Unix(at), Pending, Unix(now), 0, "")]
  }

  predicate Cancelable(rows: Table, owner: string, id: nat) {
    id in rows && rows[id].owner == owner && rows[id].status == Pending
  }

  function CancelRow(rows: Table, owner: string, id: nat): Table {
    if Cancelable(rows, owner, id) then rows[id := rows[id].(status := Canceled)] else rows
  }

  predicate Due(row: Row, now: Time) {
    row.status == Pending && row.scheduledAt <= Unix(now)
  }

  function Taken(row: Row, now: Time): Row {
    if row.status == Pending then row.(status := Sending, claimedAt := Unix(now)) else row
  }

  function Claimed(rows: Table, ids: seq<nat>, now: Time): Table {
    map id | id in rows :: if id in ids then Taken(rows[id], now) else rows[id]
  }

  function Marked(rows: Table, id: nat, ok: bool, err: string): Table {
    if id !in rows then rows
    else if ok then rows[id := rows[id].(status := Sent)]
    else rows[id := rows[id].(status := Failed, lastError := err)]
  }

  predicate Stale(row: Row, olderThan: Time) {
    row.status == Sending && 0 < row.claimedAt < Unix(olderThan)
  }

  function Restored(rows: Table, olderThan: Time): Table {
    map id | id in rows :: if Stale(rows[id], olderThan) then rows[id].(status := Pending) else rows[id]
  }

  /** The answer of the SELECT behind a claim: distinct due rows, soonest first, cut off at `limit` (SQLite reads
      a negative LIMIT as none). Rows due at the same second may come in any order. */
  ghost predicate DueSelection(rows: Table, now: Time, limit: int, ids: seq<nat>) {
    && (forall k :: 0 <= k < |ids| ==> ids[k] in rows && Due(rows[ids[k]], now))
    && (forall j, k :: 0 <= j < k < |ids| ==> ids[j] != ids[k] && rows[ids[j]].scheduledAt <= rows[ids[k]].scheduledAt)
    && (limit >= 0 ==> |ids| <= limit)
    && (forall id :: id in rows && Due(rows[id], now) && id !in ids ==>
          |ids| == limit && forall k :: 0 <= k < |ids| ==> rows[ids[k]].scheduledAt <= rows[id].scheduledAt)
  }

  class Store {
    var rows: Table
    var lastId: nat

    ghost predicate Valid()
      reads this
    {
      forall id :: id in rows ==> id <= lastId
    }

    constructor ()
      ensures Valid() && rows == map[]
    {
      rows, lastId := map[], 0;
    }

    method Create(owner: string, msg: Message, scheduledAt: Time, now: Time) returns (id: nat)
      requires Valid()
      modifies this
      ensures Valid() && id !in old(rows)
      ensures rows == Inserted(old(rows), id, owner, msg, scheduledAt, now)
    {
      lastId := lastId + 1;
      id := lastId;
      rows := rows[id := Row(owner, msg, Unix(scheduledAt), Pending, Unix(now), 0, "")];
    }

    method Cancel(owner: string, id: nat) returns (ok: bool)
      requires Valid()
      modifies this`rows
      ensures Valid() && rows == CancelRow(old(rows), owner, id)
      ensures ok <==> Cancelable(old(rows), owner, id)
    {
      ok := false;
      if id in rows && rows[id].owner == owner && rows[id].status == Pending {
        rows := rows[id := rows[id].(status := Canceled)];
        ok := true;
      }
    }

    method SelectDueIDs(now: Time, limit: int) returns (ids: seq<nat>)
      ensures DueSelection(rows, now, limit, ids)
    {
      hide Due;
      ids := [];
      var due := set id | id in rows && Due(rows[id], now);
      while due != {} && |ids| != limit
        invariant limit >= 0 ==> |ids| <= limit
        invariant forall k :: 0 <= k < |ids| ==> ids[k] in rows && Due(rows[ids[k]], now) && ids[k] !in due
        invariant forall j, k :: 0 <= j < k < |ids| ==>
                    ids[j] != ids[k] && rows[ids[j]].scheduledAt <= rows[ids[k]].scheduledAt
        invariant forall id :: id in due ==> id in rows && Due(rows[id], now)
        invariant forall id :: id in rows && Due(rows[id], now) && id !in ids ==> id in due
        invariant forall id, k :: id in due && 0 <= k < |ids| ==> rows[ids[k]].scheduledAt <= rows[id].scheduledAt
        decreases |due|
      {
        var id := Earliest(rows, due);
        ids := ids + [id];
        due := due - {id};
      }
    }

    method ClaimIDs(ids: seq<nat>, now: Time)
      requires Valid()
      modifies this`rows
      ensures Valid() && rows == Claimed(old(rows), ids, now)
    {
      for n := 0 to |ids|
        invariant rows.Keys == old(rows).Keys
        invariant forall id :: id in rows ==>
                    rows[id] == if id in ids[..n] then Taken(old(rows)[id], now) else old(rows)[id]
      {
        var id := ids[n];
        assert ids[..n + 1] == ids[..n] + [id];
        if id in rows && rows[id].status == Pending {
          rows := rows[id := rows[id].(status := Sending, claimedAt := Unix(now))];
        }
      }
      assert ids[..|ids|] == ids;
    }

    method LoadRowsByID(ids: seq<nat>) returns (out: seq<Claim>)
      requires forall k :: 0 <= k < |ids| ==> ids[k] in rows
      ensures |out| == |ids| && forall k :: 0 <= k < |out| ==> out[k] == Claim(ids[k], rows[ids[k]])
    {
      out := [];
      for n := 0 to |ids|
        invariant |out| == n && forall k :: 0 <= k < n ==> out[k] == Claim(ids[k], rows[ids[k]])
      {
        out := out + [Claim(ids[n], rows[ids[n]])];
      }
    }

    /** One transaction: select, claim, re-read. */
    method ClaimDue(now: Time, limit: int) returns (claimed: seq<Claim>, ghost ids: seq<nat>)
      requires Valid()
      modifies this`rows
      ensures Valid() && DueSelection(old(rows), now, limit, ids)
      ensures rows == Claimed(old(rows), ids, now)
      ensures claimed == Claims(old(rows), ids, now)
    {
      var selected := SelectDueIDs(now, limit);
      ids := selected;
      ClaimIDs(selected, now);
      claimed := LoadRowsByID(selected);
    }

    method MarkSent(id: nat)
      requires Valid()
      modifies this`rows
      ensures Valid() && rows == Marked(old(rows), id, true, "")
    {
      if id in rows {
        rows := rows[id := rows[id].(status := Sent)];
      }
    }

    method MarkFailed(id: nat, errMsg: string)
      requires Valid()
      modifies this`rows
      ensures Valid() && rows == Marked(old(rows), id, false, errMsg)
    {
      if id in rows {
        rows := rows[id := rows[id].(status := Failed, lastError := errMsg)];
      }
    }

    method ResetStale(olderThan: Time) returns (n: nat)
      requires Valid()
      modifies this`rows
      ensures Valid() && rows == Restored(old(rows), olderThan)
      ensures n == |set id | id in old(rows) && Stale(old(rows)[id], olderThan)|
    {
      n := |set id | id in rows && Stale(rows[id], olderThan)|;
      rows := map id | id in rows :: if Stale(rows[id], olderThan) then rows[id].(status := Pending) else rows[id];
    }
  }

  lemma {:induction false} EarliestExists(rows: Table, due: set<nat>) returns (best: nat)
    requires due != {} && forall id :: id in due ==> id in rows
    ensures best in due && forall id :: id in due ==> rows[best].scheduledAt <= rows[id].scheduledAt
    decreases |due|
  {
    best :| best in due;
    if due != {best} {
      var rest := due - {best};
      assert rest != {} by {
        var other :| other in due && other != best;
        assert other in rest;
      }
      var other := EarliestExists(rows, rest);
      if rows[other].scheduledAt < rows[best].scheduledAt {
        best := other;
      }
      assert forall id :: id in due ==> id == best || id in rest || id in due;
    }
  }

  /** A due row that no other precedes. */
  method Earliest(rows: Table, due: set<nat>) returns (best: nat)
    requires due != {} && forall id :: id in due ==> id in rows
    ensures best in due && forall id :: id in due ==> rows[best].scheduledAt <= rows[id].scheduledAt
  {
    ghost var least := EarliestExists(rows, due);
    best :| best in due && forall id :: id in due ==> rows[best].scheduledAt <= rows[id].scheduledAt;
  }

  /** The claimed rows as the dispatcher receives them. */
  function Claims(rows: Table, ids: seq<nat>, now: Time): (claims: seq<Claim>)
    requires forall k :: 0 <= k < |ids| ==> ids[k] in rows
    ensures |claims| == |ids|
    ensures forall k :: 0 <= k < |claims| ==> claims[k] == Claim(ids[k], Taken(rows[ids[k]], now))
  {
    seq(|ids|, k requires 0 <= k < |ids| => Claim(ids[k], Taken(rows[ids[k]], now)))
  }

  // ---------------------------------------------------------------------------------------------
  // Which rows a claim takes
  // ---------------------------------------------------------------------------------------------

  function DueRows(rows: Table, now: Time): set<nat> {
    set id | id in rows && Due(rows[id], now)
  }

  function Range(ids: seq<nat>): set<nat> {
    set k | 0 <= k < |ids| :: ids[k]
  }

  lemma {:induction false} RangeSize(ids: seq<nat>)
    requires forall j, k :: 0 <= j < k < |ids| ==> ids[j] != ids[k]
    ensures |Range(ids)| == |ids|
  {
    if ids == [] {
      assert Range(ids) == {};
    } else {
      var front, last := ids[..|ids| - 1], ids[|ids| - 1];
      RangeSize(front);
      assert Range(ids) == Range(front) + {last} by {
        forall id ensures id in Range(ids) <==> id in Range(front) + {last} {
          if id in Range(ids) {
            var k :| 0 <= k < |ids| && ids[k] == id;
            assert k < |front| ==> front[k] == id;
          }
          if id in Range(front) {
            var k :| 0 <= k < |front| && front[k] == id;
            assert ids[k] == id;
          }
          if id == last {
            assert ids[|ids| - 1] == id;
          }
        }
      }
      assert last !in Range(front);
    }
  }

  /** A claim moves exactly min(limit, due) rows to `sending`, leaves none behind that was due sooner than one it
      took, and touches no other row. */
  lemma ClaimsEarliest(rows: Table, now: Time, limit: nat, ids: seq<nat>)
    requires DueSelection(rows, now, limit, ids)
    ensures var after, due := Claimed(rows, ids, now), DueRows(rows, now);
            && |ids| == (if |due| <= limit then |due| else limit)
            && (forall id :: id in rows && id in ids ==>
                  Due(rows[id], now) && after[id] == rows[id].(status := Sending, claimedAt := Unix(now)))
            && (forall id :: id in rows && id !in ids ==> after[id] == rows[id])
            && (forall taken, left :: taken in ids && left in due && left !in ids ==>
                  rows[taken].scheduledAt <= rows[left].scheduledAt)
  {
    var due := DueRows(rows, now);
    RangeSize(ids);
    assert Range(ids) <= due;
    SubsetSize(Range(ids), due);
    if |ids| < limit {
      assert due <= Range(ids);
      SubsetSize(due, Range(ids));
    }
  }

  lemma {:induction false} SubsetSize(a: set<nat>, b: set<nat>)
    requires a <= b
    ensures |a| <= |b|
    decreases |a|
  {
    if a != {} {
      var x :| x in a;
      SubsetSize(a - {x}, b - {x});
    }
  }

  /** Truncation to seconds lets a row be claimed early, but by less than a second. */
  lemma ClaimedLessThanASecondEarly(at: Time, now: Time)
    requires at != ZERO_TIME && now != ZERO_TIME
    ensures Unix(at) <= Unix(now) ==> at - now < SECOND
    ensures now >= at ==> Unix(at) <= Unix(now)
  {
    UnixBounds(at);
    UnixBounds(now);
  }

  /** Exactly when a row is never due before its instant: when the instant is a whole second. */
  lemma NeverEarlyIffWholeSecond(row: Row, at: Time)
    requires row.status == Pending && row.scheduledAt == Unix(at)
    requires at > ZERO_TIME + SECOND
    ensures (forall now :: now > ZERO_TIME && Due(row, now) ==> now >= at) <==> at % SECOND == 0
  {
    var start := Unix(at) * SECOND;
    assert Due(row, start) && start == at - at % SECOND;
  }

  /** It can be early: a row for 1.999999999 s is due at 1 s. */
  lemma CanBeEarly()
    ensures Unix(1_999_999_999) <= Unix(1_000_000_000)
  {
  }
}
