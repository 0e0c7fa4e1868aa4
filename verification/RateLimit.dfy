/** The fixed-window limiter of backend/internal/ratelimit/ratelimit.go.

    Instants and durations are integers (nanoseconds).  The class updates its table in place as the source
    does; `AllowStep` and `GcStep` are the same updates on values, over which runs are described. */
module RateLimit {
  import opened Clock

  datatype Entry = Entry(count: nat, windowStart: Time)

  type Table = map<string, Entry>

  datatype Decision = Decision(ok: bool, retry: int)

  predicate Elapsed(e: Entry, window: int, now: Time) {
    now - e.windowStart >= window
  }

  function AllowStep(entries: Table, max: int, window: int, key: string, now: Time): (Table, Decision) {
    if max <= 0 then (entries, Decision(true, 0))
    else if key !in entries || Elapsed(entries[key], window, now) then
      (entries[key := Entry(1, now)], Decision(true, 0))
    else
      var e := entries[key];
      if e.count >= max then (entries, Decision(false, window - (now - e.windowStart)))
      else (entries[key := Entry(e.count + 1, e.windowStart)], Decision(true, 0))
  }

  function GcStep(entries: Table, window: int, now: Time): Table {
    map key | key in entries && !Elapsed(entries[key], window, now) :: entries[key]
  }

  class Limiter {
    const max: int
    const window: int
    var entries: Table

    constructor (max: int, window: int)
      ensures this.max == max && this.window == window && entries == map[]
    {
      this.max := max;
      this.window := window;
      entries := map[];
    }

    method Allow(key: string, now: Time) returns (ok: bool, retry: int)
      modifies this
      ensures (entries, Decision(ok, retry)) == AllowStep(old(entries), max, window, key, now)
      ensures forall k :: k != key ==> (k in entries <==> k in old(entries))
      ensures forall k :: k != key && k in entries ==> entries[k] == old(entries)[k]
    {
      if max <= 0 {
        return true, 0;
      }
      if key !in entries || now - entries[key].windowStart >= window {
        entries := entries[key := Entry(1, now)];
        return true, 0;
      }
      var e := entries[key];
      if e.count >= max {
        return false, window - (now - e.windowStart);
      }
      entries := entries[key := Entry(e.count + 1, e.windowStart)];
      return true, 0;
    }

    method GC(now: Time)
      modifies this
      ensures entries == GcStep(old(entries), window, now)
    {
      var keys := entries.Keys;
      while keys != {}
        invariant keys <= old(entries).Keys
        invariant forall k :: k in entries <==>
                    k in old(entries) && (k in keys || !Elapsed(old(entries)[k], window, now))
        invariant forall k :: k in entries ==> entries[k] == old(entries)[k]
        decreases |keys|
      {
        var key :| key in keys;
        if now - entries[key].windowStart >= window {
          entries := entries - {key};
        }
        keys := keys - {key};
      }
    }
  }

  // ---------------------------------------------------------------------------------------------
  // Runs
  // ---------------------------------------------------------------------------------------------

  datatype Event = Request(key: string, at: Time) | Sweep(at: Time)

  /** No event happens before `since` or before the event ahead of it. */
  ghost predicate Chronological(events: seq<Event>, since: Time) {
    events != [] ==> since <= events[0].at && Chronological(events[1..], events[0].at)
  }

  function Step(entries: Table, max: int, window: int, e: Event): Table {
    match e
    case Request(key, at) => AllowStep(entries, max, window, key, at).0
    case Sweep(at) => GcStep(entries, window, at)
  }

  /** The answers to the requests of a run, in order. */
  function Answers(entries: Table, max: int, window: int, events: seq<Event>): seq<Decision>
    decreases |events|
  {
    if events == [] then []
    else
      (if events[0].Request? then [AllowStep(entries, max, window, events[0].key, events[0].at).1] else [])
      + Answers(Step(entries, max, window, events[0]), max, window, events[1..])
  }

  function WithoutSweeps(events: seq<Event>): seq<Event> {
    if events == [] then []
    else (if events[0].Request? then [events[0]] else []) + WithoutSweeps(events[1..])
  }

  /** Two tables that a request at `now` or later cannot tell apart: they differ by elapsed entries only. */
  ghost predicate Alike(a: Table, b: Table, window: int, now: Time) {
    && (forall k :: k in a && !Elapsed(a[k], window, now) ==> k in b && b[k] == a[k])
    && (forall k :: k in b && !Elapsed(b[k], window, now) ==> k in a && a[k] == b[k])
  }

  lemma AlikeStep(a: Table, b: Table, max: int, window: int, now: Time, e: Event)
    requires Alike(a, b, window, now) && now <= e.at
    ensures e.Request? ==>
              && Alike(Step(a, max, window, e), Step(b, max, window, e), window, e.at)
              && AllowStep(a, max, window, e.key, e.at).1 == AllowStep(b, max, window, e.key, e.at).1
    ensures e.Sweep? ==> Alike(Step(a, max, window, e), b, window, e.at)
  {
    if e.Request? {
      var k := e.key;
      assert k in a && !Elapsed(a[k], window, e.at) ==> !Elapsed(a[k], window, now);
      assert k in b && !Elapsed(b[k], window, e.at) ==> !Elapsed(b[k], window, now);
    }
  }

  lemma {:induction false} SweepsUnseen(a: Table, b: Table, max: int, window: int, now: Time, events: seq<Event>)
    requires Alike(a, b, window, now) && Chronological(events, now)
    ensures Answers(a, max, window, events) == Answers(b, max, window, WithoutSweeps(events))
    decreases |events|
  {
    if events != [] {
      var e, rest := events[0], events[1..];
      AlikeStep(a, b, max, window, now, e);
      var b' := if e.Request? then Step(b, max, window, e) else b;
      SweepsUnseen(Step(a, max, window, e), b', max, window, e.at, rest);
      if e.Request? {
        assert WithoutSweeps(events)[0] == e && WithoutSweeps(events)[1..] == WithoutSweeps(rest);
      } else {
        assert WithoutSweeps(events) == WithoutSweeps(rest);
      }
    }
  }

  /** GC calls, wherever they fall and however many, change no answer of a run on a non-decreasing clock. */
  lemma GcIsInvisible(entries: Table, max: int, window: int, now: Time, events: seq<Event>, others: seq<Event>)
    requires Chronological(events, now) && Chronological(others, now)
    requires WithoutSweeps(events) == WithoutSweeps(others)
    ensures Answers(entries, max, window, events) == Answers(entries, max, window, others)
  {
    SweepsUnseen(entries, entries, max, window, now, events);
    SweepsUnseen(entries, entries, max, window, now, others);
  }

  /** On a clock that runs backwards a sweep can be seen: it drops a window that is open again. */
  lemma BackwardsClockShowsGc()
    ensures var events := [Request("a", 0), Sweep(10), Request("a", 5)];
            Answers(map[], 1, 10, events) != Answers(map[], 1, 10, WithoutSweeps(events))
  {
    var first, last := Request("a", 0), Request("a", 5);
    var events := [first, Sweep(10), last];
    var t: Table := map["a" := Entry(1, 0)];
    assert events[1..] == [Sweep(10), last] && events[1..][1..] == [last] && [last][1..] == [];
    assert Step(map[], 1, 10, first) == t && GcStep(t, 10, 10) == map[];
    assert Answers(map[], 1, 10, [last]) == [Decision(true, 0)];
    assert Answers(t, 1, 10, [last]) == [Decision(false, 5)];
    assert Answers(t, 1, 10, [Sweep(10), last]) == [Decision(true, 0)];
    assert Answers(map[], 1, 10, events) == [Decision(true, 0)] + [Decision(true, 0)];
    assert WithoutSweeps([last]) == [last] && WithoutSweeps([Sweep(10), last]) == [last];
    assert WithoutSweeps(events) == [first, last] && [first, last][1..] == [last];
    assert Answers(map[], 1, 10, [first, last]) == [Decision(true, 0)] + [Decision(false, 5)];
    assert ([Decision(true, 0)] + [Decision(true, 0)])[1] != ([Decision(true, 0)] + [Decision(false, 5)])[1];
  }

  // ---------------------------------------------------------------------------------------------
  // How much a key is permitted
  // ---------------------------------------------------------------------------------------------

  /** The permitted requests of `key` in the half-open interval [from, from + window). */
  function Permitted(entries: Table, max: int, window: int, events: seq<Event>, key: string, from: Time): nat
    decreases |events|
  {
    if events == [] then 0
    else
      var e := events[0];
      (if e.Request? && e.key == key && from <= e.at < from + window
          && AllowStep(entries, max, window, key, e.at).1.ok then 1 else 0)
      + Permitted(Step(entries, max, window, e), max, window, events[1..], key, from)
  }

  /** The requests of `key` in a run. */
  function Requests(events: seq<Event>, key: string): nat {
    if events == [] then 0
    else (if events[0].Request? && events[0].key == key then 1 else 0) + Requests(events[1..], key)
  }

  /** Counts stay within the limit. */
  ghost predicate Sound(entries: Table, max: int, now: Time) {
    forall k :: k in entries ==> 1 <= entries[k].count <= max && entries[k].windowStart <= now
  }

  lemma SoundStep(entries: Table, max: int, window: int, now: Time, e: Event)
    requires max >= 1 && now <= e.at && Sound(entries, max, now)
    ensures Sound(Step(entries, max, window, e), max, e.at)
  {
  }

  /** What the interval starting at `from` can still get when the clock shows `now`. */
  function Allowance(entries: Table, max: nat, window: nat, key: string, from: Time, now: Time): int {
    if key in entries && !Elapsed(entries[key], window, now) then
      var e := entries[key];
      if e.windowStart >= from then max - e.count
      else if e.windowStart + window <= from then 2 * max - 1
      else 2 * max - e.count
    else if now >= from then max
    else 2 * max - 1
  }

  lemma AllowanceStep(entries: Table, max: nat, window: nat, key: string, from: Time, now: Time, e: Event)
    requires max >= 1 && window >= 1 && now <= e.at < from + window && Sound(entries, max, now)
    ensures var granted := if e.Request? && e.key == key && from <= e.at
                              && AllowStep(entries, max, window, key, e.at).1.ok then 1 else 0;
            granted + Allowance(Step(entries, max, window, e), max, window, key, from, e.at)
            <= Allowance(entries, max, window, key, from, now)
  {
    var next := Step(entries, max, window, e);
    if key in entries && e.Sweep? {
      assert key in next <==> !Elapsed(entries[key], window, e.at);
    }
  }

  lemma {:induction false} PermittedWithin(entries: Table, max: nat, window: nat, now: Time, events: seq<Event>,
                                           key: string, from: Time)
    requires max >= 1 && window >= 1 && Sound(entries, max, now) && Chronological(events, now)
    ensures Permitted(entries, max, window, events, key, from) <= Allowance(entries, max, window, key, from, now)
    decreases |events|
  {
    if events != [] {
      var e, rest := events[0], events[1..];
      if e.at < from + window {
        SoundStep(entries, max, window, now, e);
        AllowanceStep(entries, max, window, key, from, now, e);
        PermittedWithin(Step(entries, max, window, e), max, window, e.at, rest, key, from);
      } else {
        NoneLater(entries, max, window, events, now, key, from);
      }
    }
  }

  lemma {:induction false} NoneLater(entries: Table, max: int, window: int, events: seq<Event>, now: Time,
                                     key: string, from: Time)
    requires Chronological(events, now) && (events != [] ==> events[0].at >= from + window)
    ensures Permitted(entries, max, window, events, key, from) == 0
    decreases |events|
  {
    if events != [] {
      NoneLater(Step(entries, max, window, events[0]), max, window, events[1..], events[0].at, key, from);
    }
  }

  /** Any interval as long as the window sees at most 2 * max - 1 permitted requests of a key. */
  lemma SlidingWindowBound(max: nat, window: nat, now: Time, events: seq<Event>, key: string, from: Time)
    requires max >= 1 && window >= 1 && Chronological(events, now)
    ensures Permitted(map[], max, window, events, key, from) <= 2 * max - 1
  {
    PermittedWithin(map[], max, window, now, events, key, from);
  }

  /** `n` requests of a key at one instant. */
  function Burst(n: nat, key: string, at: Time): seq<Event> {
    if n == 0 then [] else [Request(key, at)] + Burst(n - 1, key, at)
  }

  lemma RequestPermitted(entries: Table, max: nat, window: nat, key: string, e: Entry, at: Time, rest: seq<Event>,
                         from: Time)
    requires key in entries && entries[key] == e && !Elapsed(e, window, at) && e.count < max
    requires from <= at < from + window
    ensures Permitted(entries, max, window, [Request(key, at)] + rest, key, from)
         == 1 + Permitted(entries[key := Entry(e.count + 1, e.windowStart)], max, window, rest, key, from)
  {
    var events := [Request(key, at)] + rest;
    assert events[1..] == rest;
  }

  lemma {:induction false} BurstPermitted(entries: Table, max: nat, window: nat, n: nat, key: string, e: Entry,
                                          at: Time, rest: seq<Event>, from: Time)
    requires key in entries && entries[key] == e && !Elapsed(e, window, at) && e.count + n <= max
    requires from <= at < from + window
    ensures Permitted(entries, max, window, Burst(n, key, at) + rest, key, from)
         == n + Permitted(entries[key := Entry(e.count + n, e.windowStart)], max, window, rest, key, from)
    decreases n
  {
    hide Permitted;
    if n == 0 {
      assert Burst(n, key, at) + rest == rest;
      assert entries[key := Entry(e.count + n, e.windowStart)] == entries;
    } else {
      var tail := Burst(n - 1, key, at) + rest;
      assert Burst(n, key, at) + rest == [Request(key, at)] + tail;
      var e' := Entry(e.count + 1, e.windowStart);
      RequestPermitted(entries, max, window, key, e, at, tail, from);
      BurstPermitted(entries[key := e'], max, window, n - 1, key, e', at, rest, from);
      var full := Entry(e.count + n, e.windowStart);
      assert entries[key := e'][key := full] == entries[key := full];
    }
  }

  /** The bound is reached, for every limit and every window longer than one unit. */
  lemma SlidingWindowBoundIsSharp(max: nat, window: nat, key: string)
    requires max >= 1 && window >= 2
    ensures var events := [Request(key, 0)] + (Burst(max - 1, key, window - 1)
                          + ([Request(key, window)] + Burst(max - 1, key, window)));
            Permitted(map[], max, window, events, key, 1) == 2 * max - 1
  {
    var last := Burst(max - 1, key, window);
    var second := [Request(key, window)] + last;
    var first := Burst(max - 1, key, window - 1) + second;
    var events := [Request(key, 0)] + first;
    var t0: Table := map[key := Entry(1, 0)];
    assert events[1..] == first && Step(map[], max, window, events[0]) == t0;
    BurstPermitted(t0, max, window, max - 1, key, Entry(1, 0), window - 1, second, 1);
    var t1: Table := t0[key := Entry(max, 0)];
    var t2: Table := t1[key := Entry(1, window)];
    assert second[1..] == last && Step(t1, max, window, second[0]) == t2;
    assert last + [] == last;
    BurstPermitted(t2, max, window, max - 1, key, Entry(1, window), window, [], 1);
  }

  function Least(a: nat, b: nat): nat {
    if a <= b then a else b
  }

  /** Within one fixed window the key gets what is left of its limit, or all it asks for. */
  lemma {:induction false} RestOfWindow(entries: Table, max: nat, window: nat, now: Time, events: seq<Event>,
                                        key: string)
    requires max >= 1 && key in entries && entries[key].count <= max && entries[key].windowStart <= now
    requires Chronological(events, now)
    requires forall k :: 0 <= k < |events| ==> events[k].at < entries[key].windowStart + window
    ensures Permitted(entries, max, window, events, key, entries[key].windowStart)
         == Least(max - entries[key].count, Requests(events, key))
    decreases |events|
  {
    if events != [] {
      var e, rest := events[0], events[1..];
      var next := Step(entries, max, window, e);
      assert key in next && next[key].windowStart == entries[key].windowStart;
      forall k | 0 <= k < |rest| ensures rest[k].at < next[key].windowStart + window {
        assert rest[k] == events[k + 1];
      }
      RestOfWindow(next, max, window, e.at, rest, key);
    }
  }

  /** A window opened by a request permits exactly min(max, requests made in it). */
  lemma WindowPermitsExactly(entries: Table, max: nat, window: nat, key: string, start: Time, events: seq<Event>)
    requires max >= 1 && window >= 1
    requires key !in entries || Elapsed(entries[key], window, start)
    requires Chronological(events, start)
    requires forall k :: 0 <= k < |events| ==> events[k].at < start + window
    ensures Permitted(entries, max, window, [Request(key, start)] + events, key, start)
         == Least(max, Requests([Request(key, start)] + events, key))
  {
    var run := [Request(key, start)] + events;
    var next := Step(entries, max, window, run[0]);
    assert run[1..] == events && next[key] == Entry(1, start);
    RestOfWindow(next, max, window, start, events, key);
  }

  // ---------------------------------------------------------------------------------------------
  // The wait a denial announces
  // ---------------------------------------------------------------------------------------------

  function After(entries: Table, max: int, window: int, events: seq<Event>): Table
    decreases |events|
  {
    if events == [] then entries else After(Step(entries, max, window, events[0]), max, window, events[1..])
  }

  /** No request of the key at or after `until`. */
  ghost predicate Waits(events: seq<Event>, key: string, until: Time) {
    forall k :: 0 <= k < |events| && events[k].at >= until ==> !(events[k].Request? && events[k].key == key)
  }

  function LastAt(events: seq<Event>, now: Time): Time {
    if events == [] then now else events[|events| - 1].at
  }

  lemma {:induction false} DeniedUntil(entries: Table, max: int, window: int, key: string, e: Entry, now: Time,
                                       events: seq<Event>, t: Time)
    requires max >= 1 && e.count >= max
    requires key in entries ==> entries[key] == e
    requires key !in entries ==> now >= e.windowStart + window
    requires Chronological(events, now) && Waits(events, key, e.windowStart + window)
    requires t >= LastAt(events, now)
    ensures AllowStep(After(entries, max, window, events), max, window, key, t).1.ok <==> t >= e.windowStart + window
    decreases |events|
  {
    if events != [] {
      var rest := events[1..];
      assert Waits(rest, key, e.windowStart + window) by {
        assert forall k :: 0 <= k < |rest| ==> rest[k] == events[k + 1];
      }
      assert LastAt(events, now) == LastAt(rest, events[0].at);
      DeniedUntil(Step(entries, max, window, events[0]), max, window, key, e, events[0].at, rest, t);
    }
  }

  lemma WaitFrom(entries: Table, max: int, window: int, key: string, now: Time, events: seq<Event>, t: Time)
    requires Sound(entries, max, now)
    requires !AllowStep(entries, max, window, key, now).1.ok
    requires Chronological(events, now) && t >= LastAt(events, now)
    requires Waits(events, key, now + AllowStep(entries, max, window, key, now).1.retry)
    ensures var retry := AllowStep(entries, max, window, key, now).1.retry;
            && 0 < retry <= window
            && (AllowStep(After(entries, max, window, events), max, window, key, t).1.ok <==> t >= now + retry)
  {
    DeniedUntil(entries, max, window, key, entries[key], now, events, t);
  }

  lemma {:induction false} SoundRun(entries: Table, max: int, window: int, now: Time, events: seq<Event>)
    requires max >= 1 && Sound(entries, max, now) && Chronological(events, now)
    ensures Sound(After(entries, max, window, events), max, LastAt(events, now)) && now <= LastAt(events, now)
    decreases |events|
  {
    if events != [] {
      SoundStep(entries, max, window, now, events[0]);
      SoundRun(Step(entries, max, window, events[0]), max, window, events[0].at, events[1..]);
    }
  }

  /** A denial's wait, after any run from the empty table, is positive, at most a window, and exact: whatever else
      happens meanwhile, the key is denied before it is over and permitted from then on. */
  lemma HonestWait(max: int, window: int, start: Time, history: seq<Event>, key: string, now: Time,
                   events: seq<Event>, t: Time)
    requires Chronological(history, start) && LastAt(history, start) <= now
    requires !AllowStep(After(map[], max, window, history), max, window, key, now).1.ok
    requires Chronological(events, now) && t >= LastAt(events, now)
    requires Waits(events, key, now + AllowStep(After(map[], max, window, history), max, window, key, now).1.retry)
    ensures var entries := After(map[], max, window, history);
            var retry := AllowStep(entries, max, window, key, now).1.retry;
            && 0 < retry <= window
            && (AllowStep(After(entries, max, window, events), max, window, key, t).1.ok <==> t >= now + retry)
  {
    var entries := After(map[], max, window, history);
    assert max >= 1;
    SoundRun(map[], max, window, start, history);
    assert Sound(entries, max, now);
    WaitFrom(entries, max, window, key, now, events, t);
  }

  /** A sweep removes every window that has elapsed and keeps every other as it is. */
  lemma SweptExactly(entries: Table, window: int, now: Time)
    ensures forall key :: key in GcStep(entries, window, now) <==>
              key in entries && now < entries[key].windowStart + window
    ensures forall key :: key in GcStep(entries, window, now) ==> GcStep(entries, window, now)[key] == entries[key]
  {
  }

  /** A limit of zero or less is none: nothing is counted and all is permitted. */
  lemma NoLimit(entries: Table, max: int, window: int, key: string, now: Time)
    requires max <= 0
    ensures AllowStep(entries, max, window, key, now) == (entries, Decision(true, 0))
  {
  }
}
