/** Pending second-factor tokens under concurrency: any number of instances run the single SQL statements of
    VerifyPending and Peek against the shared table in any order, while rows are deleted, evicted and swept. */
module AttemptBudget {
  import opened Clock
  import opened SessionStore
  import opened SessionRefinement

  /** A call that has run its UPDATE ... RETURNING and not yet finished; `peek` calls have a SELECT to come. */
  datatype Flight = Flight(key: Key, attempts: nat, expired: bool, peek: bool)

  /** `answers` records the key of every call that reported success. */
  datatype State = State(rows: Table, issued: set<Key>, flights: map<nat, Flight>, answers: seq<Key>)

  datatype Step =
    | Issue(key: Key, row: Row)
    | Delete(keys: set<Key>)                                    // logout, consume, revoke, eviction, sweep
    | Begin(call: nat, target: Key, now: Time, isPeek: bool)    // the increment
    | Finish(done: nat, later: Time)                            // what follows it in the same call
    | Abandon(lost: nat)                                        // the instance dies

  ghost predicate Enabled(s: State, e: Step) {
    match e
    case Issue(key, row) => key !in s.issued && row.attempts == 0  // tokens are random and never reused
    case Begin(call, _, _, _) => call !in s.flights
    case Finish(done, _) => done in s.flights
    case _ => true
  }

  function Next(s: State, e: Step): State {
    match e
    case Issue(key, row) => s.(rows := s.rows[key := row], issued := s.issued + {key})
    case Delete(keys) => s.(rows := s.rows - keys)
    case Begin(call, key, now, isPeek) =>
      if key !in s.rows then s
      else
        s.(rows := Bumped(s.rows, key),
           flights := s.flights[call := Flight(key, s.rows[key].attempts + 1, Expired(s.rows[key], now), isPeek)])
    case Finish(done, later) =>
      if done !in s.flights then s
      else
        var f := s.flights[done];
        var t := s.(flights := s.flights - {done});
        if f.expired || f.attempts > MAX_PENDING_ATTEMPTS then t.(rows := Without(s.rows, f.key))
        else if !f.peek then t.(answers := s.answers + [f.key])
        else if f.key !in s.rows then t
        else if Expired(s.rows[f.key], later) then t.(rows := Without(s.rows, f.key))
        else t.(answers := s.answers + [f.key])
    case Abandon(lost) => s.(flights := s.flights - {lost})
  }

  ghost predicate Legal(s: State, run: seq<Step>)
    decreases |run|
  {
    run != [] ==> Enabled(s, run[0]) && Legal(Next(s, run[0]), run[1..])
  }

  function After(s: State, run: seq<Step>): State
    decreases |run|
  {
    if run == [] then s else After(Next(s, run[0]), run[1..])
  }

  const START: State := State(map[], {}, map[], [])

  function Answered(answers: seq<Key>, key: Key): nat {
    if answers == [] then 0
    else Answered(answers[..|answers| - 1], key) + if answers[|answers| - 1] == key then 1 else 0
  }

  /** The calls in flight that may still succeed for a key. */
  function Hopeful(s: State, key: Key): set<nat> {
    set call | call in s.flights && Hope(s.flights[call], key)
  }

  /** Successes given and still possible: each has used up an attempt of its own. */
  function Used(s: State, key: Key): nat {
    Answered(s.answers, key) + |Hopeful(s, key)|
  }

  ghost predicate Inv(s: State, key: Key) {
    && (key !in s.issued ==> key !in s.rows && Used(s, key) == 0)
    && Used(s, key) <= MAX_PENDING_ATTEMPTS
    && (key in s.rows ==> Used(s, key) <= s.rows[key].attempts)
  }

  lemma AnsweredAppend(answers: seq<Key>, last: Key, key: Key)
    ensures Answered(answers + [last], key) == Answered(answers, key) + if last == key then 1 else 0
  {
    assert (answers + [last])[..|answers|] == answers;
  }

  predicate Hope(f: Flight, key: Key) {
    f.key == key && !f.expired && f.attempts <= MAX_PENDING_ATTEMPTS
  }

  lemma BeginHope(s: State, call: nat, f: Flight, key: Key)
    requires call !in s.flights
    ensures var t := s.(flights := s.flights[call := f]);
            |Hopeful(t, key)| == |Hopeful(s, key)| + if Hope(f, key) then 1 else 0
  {
    var t := s.(flights := s.flights[call := f]);
    if Hope(f, key) {
      assert Hopeful(t, key) == Hopeful(s, key) + {call};
    } else {
      assert Hopeful(t, key) == Hopeful(s, key);
    }
  }

  lemma EndHope(s: State, call: nat, key: Key)
    ensures var t := s.(flights := s.flights - {call});
            |Hopeful(t, key)| == |Hopeful(s, key)| - if call in s.flights && Hope(s.flights[call], key) then 1 else 0
  {
    var t := s.(flights := s.flights - {call});
    assert Hopeful(t, key) == Hopeful(s, key) - {call};
  }

  lemma HopefulOnlyFlights(s: State, t: State, key: Key)
    requires s.flights == t.flights
    ensures Hopeful(s, key) == Hopeful(t, key)
  {
  }

  /** What a step does to the successes given and possible. */
  lemma UsedStep(s: State, e: Step, key: Key)
    requires Enabled(s, e)
    ensures Used(Next(s, e), key) <= Used(s, key)
              + if e.Begin? && e.target == key && key in s.rows && s.rows[key].attempts < MAX_PENDING_ATTEMPTS then 1
                else 0
  {
    var t := Next(s, e);
    match e
    case Begin(call, target, now, isPeek) =>
      if target in s.rows {
        var f := Flight(target, s.rows[target].attempts + 1, Expired(s.rows[target], now), isPeek);
        BeginHope(s, call, f, key);
        HopefulOnlyFlights(t, s.(flights := s.flights[call := f]), key);
      }
    case Finish(done, _) =>
      EndHope(s, done, key);
      HopefulOnlyFlights(t, s.(flights := s.flights - {done}), key);
      AnsweredAppend(s.answers, s.flights[done].key, key);
    case Abandon(lost) =>
      EndHope(s, lost, key);
    case _ =>
      HopefulOnlyFlights(s, t, key);
  }

  lemma InvStep(s: State, e: Step, key: Key)
    requires Inv(s, key) && Enabled(s, e)
    ensures Inv(Next(s, e), key)
  {
    UsedStep(s, e, key);
  }

  lemma {:induction false} InvRun(s: State, run: seq<Step>, key: Key)
    requires Inv(s, key) && Legal(s, run)
    ensures Inv(After(s, run), key)
    decreases |run|
  {
    if run != [] {
      InvStep(s, run[0], key);
      InvRun(Next(s, run[0]), run[1..], key);
    }
  }

  /** Whatever the interleaving, a pending token gets at most five successful answers in its whole life. */
  lemma AtMostFiveAnswers(run: seq<Step>, key: Key)
    requires Legal(START, run)
    ensures Answered(After(START, run).answers, key) <= MAX_PENDING_ATTEMPTS
  {
    InvRun(START, run, key);
  }

  lemma GoneStep(s: State, e: Step, key: Key)
    requires Enabled(s, e) && key in s.issued && key !in s.rows
    ensures key in Next(s, e).issued && key !in Next(s, e).rows
    ensures Used(Next(s, e), key) <= Used(s, key)
  {
    UsedStep(s, e, key);
  }

  /** Once its row is gone a token gains no success beyond the calls already past their increment. */
  lemma {:induction false} GoneForever(s: State, run: seq<Step>, key: Key)
    requires Legal(s, run) && key in s.issued && key !in s.rows
    ensures key !in After(s, run).rows
    ensures Answered(After(s, run).answers, key) <= Answered(s.answers, key) + |Hopeful(s, key)|
    decreases |run|
  {
    if run != [] {
      GoneStep(s, run[0], key);
      GoneForever(Next(s, run[0]), run[1..], key);
    }
  }

  /** One call, from its increment to its answer. */
  function Call(call: nat, key: Key, now: Time, isPeek: bool): seq<Step> {
    [Begin(call, key, now, isPeek), Finish(call, now)]
  }

  function Calls(n: nat, key: Key, now: Time, isPeek: bool): seq<Step> {
    if n == 0 then [] else Calls(n - 1, key, now, isPeek) + Call(n, key, now, isPeek)
  }

  lemma {:induction false} AfterConcat(s: State, a: seq<Step>, b: seq<Step>)
    ensures After(s, a + b) == After(After(s, a), b)
    ensures Legal(s, a + b) <==> Legal(s, a) && Legal(After(s, a), b)
    decreases |a|
  {
    if a == [] {
      assert a + b == b;
    } else {
      assert (a + b)[1..] == a[1..] + b;
      AfterConcat(Next(s, a[0]), a[1..], b);
    }
  }

  lemma CallAnswers(s: State, call: nat, key: Key, now: Time, isPeek: bool)
    requires s.flights == map[] && key in s.rows && s.rows[key].attempts < MAX_PENDING_ATTEMPTS
    requires !Expired(s.rows[key], now)
    ensures Legal(s, Call(call, key, now, isPeek))
    ensures After(s, Call(call, key, now, isPeek)) == s.(rows := Bumped(s.rows, key), answers := s.answers + [key])
  {
    var begin, finish := Begin(call, key, now, isPeek), Finish(call, now);
    var run := [begin, finish];
    assert run[1..] == [finish] && [finish][1..] == [];
    var mid := Next(s, begin);
    assert mid.flights - {call} == s.flights;
    assert After(mid, [finish]) == Next(mid, finish) && Legal(mid, [finish]);
  }

  lemma {:induction false} CallsAnswer(s: State, n: nat, key: Key, now: Time, isPeek: bool)
    requires s.flights == map[] && key in s.rows && s.rows[key].attempts == 0 && n <= 5
    requires !Expired(s.rows[key], now)
    ensures Legal(s, Calls(n, key, now, isPeek))
    ensures var t := After(s, Calls(n, key, now, isPeek));
            && t.flights == map[] && key in t.rows && t.rows[key] == s.rows[key].(attempts := n)
            && Answered(t.answers, key) == Answered(s.answers, key) + n
  {
    if n > 0 {
      hide Legal, After, Answered;
      CallsAnswer(s, n - 1, key, now, isPeek);
      var t := After(s, Calls(n - 1, key, now, isPeek));
      CallAnswers(t, n, key, now, isPeek);
      AnsweredAppend(t.answers, key, key);
      AfterConcat(s, Calls(n - 1, key, now, isPeek), Call(n, key, now, isPeek));
    }
  }

  /** The five successes are there to be had: a token just issued answers its first five calls. */
  lemma FiveAnswersReached(key: Key, row: Row, now: Time, isPeek: bool)
    requires row.attempts == 0 && !Expired(row, now)
    ensures var run := [Issue(key, row)] + Calls(5, key, now, isPeek);
            Legal(START, run) && Answered(After(START, run).answers, key) == 5
  {
    var issue, s := [Issue(key, row)], Next(START, Issue(key, row));
    assert issue[1..] == [];
    assert After(START, issue) == s && Legal(START, issue);
    CallsAnswer(s, 5, key, now, isPeek);
    AfterConcat(START, issue, Calls(5, key, now, isPeek));
  }
}
