/** One session manager, two implementations: an in-process map and the rows of one kind in the shared table.
    The operations are those of auth.Authenticator, webmail.Sessions and domainadmin.Sessions. */
module SessionRefinement {
  import opened Options
  import opened Clock
  import opened SessionStore

  const MAX_PENDING_ATTEMPTS: nat := 5

  // ---------------------------------------------------------------------------------------------
  // The in-memory manager
  // ---------------------------------------------------------------------------------------------

  /** What a token stands for: who it belongs to, the secret kept with it, and its metadata. */
  datatype Holder = Holder(subject: string, secret: string, meta: string)

  datatype Entry = Entry(holder: Holder, expires: Time, attempts: nat)

  type Memory = map<string, Entry>

  /** Validate and Get: an entry past its expiry is evicted. */
  function MemLookup(m: Memory, token: string, now: Time): (Memory, Option<Holder>) {
    if token == "" || token !in m then (m, None)
    else if now > m[token].expires then (m - {token}, None)
    else (m, Some(m[token].holder))
  }

  /** VerifyPending and Peek: each call is one attempt, and the sixth invalidates the token. */
  function MemVerify(m: Memory, token: string, now: Time): (Memory, Option<Holder>) {
    if token == "" || token !in m then (m, None)
    else if now > m[token].expires then (m - {token}, None)
    else
      var e := m[token].(attempts := m[token].attempts + 1);
      if e.attempts > MAX_PENDING_ATTEMPTS then (m - {token}, None) else (m[token := e], Some(e.holder))
  }

  function MemSweep(m: Memory, now: Time): Memory {
    map token | token in m && now <= m[token].expires :: m[token]
  }

  /** RevokeByID, when at most one session has the ID. */
  function MemWithoutId(sha: string -> seq<Byte>, m: Memory, id: string): Memory {
    map token | token in m && SessionID(sha, token) != id :: m[token]
  }

  // ---------------------------------------------------------------------------------------------
  // The store-backed manager
  // ---------------------------------------------------------------------------------------------

  /** A manager's own part of the table: its kind, the digest, and how it opens a sealed secret. */
  datatype Manager = Manager(kind: string, sha: string -> seq<Byte>, open: string -> Option<string>)
  {
    function KeyOf(token: string): Key {
      Key(HashToken(sha, token), kind)
    }

    function HolderOf(row: Row): Option<Holder> {
      match open(row.secret)
      case None => None
      case Some(secret) => Some(Holder(row.subject, secret, row.meta))
    }

    function Lookup(rows: Table, token: string, now: Time): (Table, Option<Holder>) {
      if token == "" then (rows, None)
      else
        var (rows', row) := Find(rows, KeyOf(token), now);
        (rows', if row.None? then None else HolderOf(row.value))
    }

    /** The increment, the limit, then (for Peek) a second look at the row in the same call. */
    function Verify(rows: Table, token: string, now: Time): (Table, Option<Holder>) {
      if token == "" then (rows, None)
      else
        var (rows', attempt) := Increment(rows, KeyOf(token), now);
        if attempt.None? then (rows', None)
        else if attempt.value.attempts > MAX_PENDING_ATTEMPTS then (Without(rows', KeyOf(token)), None)
        else
          var (rows'', row) := Find(rows', KeyOf(token), now);
          (rows'', if row.None? then None else HolderOf(row.value))
    }
  }

  /** A row that the session list shows under the given ID. */
  predicate Listable(key: Key, row: Row, kind: string, subject: string, id: string, now: Time) {
    && Matches(key, row, kind, subject) && row.expiresAt > Unix(now)
    && |key.hash| >= SESSION_ID_LEN && key.hash[..SESSION_ID_LEN] == id
  }

  /** RevokeByID, when at most one listed session has the ID. */
  function WithoutId(rows: Table, kind: string, subject: string, id: string, now: Time): Table {
    map key | key in rows && !Listable(key, rows[key], kind, subject, id, now) :: rows[key]
  }

  /** VerifyPending stops after the increment and answers with the subject alone; looking at the row again, as
      Peek does, finds it as the increment left it. */
  function VerifyPending(rows: Table, key: Key, now: Time): (Table, Option<string>) {
    var (rows', attempt) := Increment(rows, key, now);
    if attempt.None? then (rows', None)
    else if attempt.value.attempts > MAX_PENDING_ATTEMPTS then (Without(rows', key), None)
    else (rows', Some(attempt.value.subject))
  }

  lemma PeekFindsWhatItCounted(g: Manager, rows: Table, token: string, now: Time)
    requires token != ""
    requires g.KeyOf(token) in rows ==> g.open(rows[g.KeyOf(token)].secret).Some?
    ensures var (peeked, holder) := g.Verify(rows, token, now);
            var (counted, subject) := VerifyPending(rows, g.KeyOf(token), now);
            && peeked == counted
            && (holder.Some? <==> subject.Some?)
            && (holder.Some? ==> holder.value.subject == subject.value)
  {
  }

  // ---------------------------------------------------------------------------------------------
  // Histories
  // ---------------------------------------------------------------------------------------------

  datatype Event =
    | Mint(token: string, holder: Holder, sealed: string, expires: Time, at: Time)
    | Look(token: string, at: Time)
    | Try(token: string, at: Time)
    | Drop(token: string, at: Time)             // Logout, ConsumePending, Delete
    | RevokeOthers(subject: string, keep: string, at: Time)
    | RevokeById(subject: string, id: string, at: Time)
    | Sweep(at: Time)
    | OthersSweep(at: Time)                     // another manager's sweep of the shared table
    | OthersPut(key: Key, row: Row, at: Time)   // another manager's row

  /** Both implementations after the same history, with the expiries of all tokens minted.  `late` holds the tokens
      revoked by ID in the instant from which the table no longer lists them but still finds them. */
  datatype Both = Both(mem: Memory, rows: Table, minted: map<string, Time>, late: set<string>)

  function Apply(g: Manager, s: Both, e: Event): Both {
    match e
    case Mint(token, h, sealed, expires, at) =>
      s.(mem := s.mem[token := Entry(h, expires, 0)],
         rows := s.rows[g.KeyOf(token) := Row(h.subject, sealed, h.meta, 0, Unix(at), Unix(expires))],
         minted := s.minted[token := expires])
    case Look(token, at) => s.(mem := MemLookup(s.mem, token, at).0, rows := g.Lookup(s.rows, token, at).0)
    case Try(token, at) => s.(mem := MemVerify(s.mem, token, at).0, rows := g.Verify(s.rows, token, at).0)
    case Drop(token, at) => s.(mem := s.mem - {token}, rows := Without(s.rows, g.KeyOf(token)))
    case RevokeOthers(subject, keep, at) =>
      s.(mem := map token | token in s.mem && token == keep :: s.mem[token],
         rows := WithoutSubject(s.rows, g.kind, subject, HashToken(g.sha, keep)))
    case RevokeById(subject, id, at) =>
      s.(mem := MemWithoutId(g.sha, s.mem, id),
         rows := WithoutId(s.rows, g.kind, subject, id, at),
         late := s.late
                 + set token | token in s.minted && SessionID(g.sha, token) == id && at == Floor(s.minted[token]))
    case Sweep(at) => s.(mem := MemSweep(s.mem, at), rows := Swept(s.rows, at))
    case OthersSweep(at) => s.(rows := Swept(s.rows, at))
    case OthersPut(key, row, at) => s.(rows := s.rows[key := row])
  }

  /** All rows of the manager belong to one subject: the one configured administrator. */
  ghost predicate OneSubject(g: Manager, rows: Table, subject: string) {
    forall key :: key in rows && key.kind == g.kind ==> rows[key].subject == subject
  }

  /** What the environment provides: fresh random tokens, ciphertexts that open to what was sealed, other
      managers that use other kinds, expiries outside the first second of 1970, and digests of at least eight bytes
      whose first eight tell the minted tokens apart. */
  ghost predicate Enabled(g: Manager, s: Both, e: Event) {
    match e
    case Mint(token, h, sealed, expires, _) =>
      && token != "" && token !in s.minted
      && g.open(sealed) == Some(h.secret)
      && Unix(expires) != 0
    case RevokeOthers(subject, _, _) => OneSubject(g, s.rows, subject)
    case RevokeById(subject, id, _) =>
      && OneSubject(g, s.rows, subject)
      && (forall token :: token in s.minted ==> |g.sha(token)| >= 8)
      && (forall a, b :: a in s.minted && b in s.minted && SessionID(g.sha, a) == SessionID(g.sha, b) == id ==> a == b)
    case OthersPut(key, _, _) => key.kind != g.kind
    case _ => true
  }

  ghost predicate Legal(g: Manager, s: Both, events: seq<Event>, since: Time)
    decreases |events|
  {
    events != [] ==>
      && since <= events[0].at && Enabled(g, s, events[0])
      && Legal(g, Apply(g, s, events[0]), events[1..], events[0].at)
  }

  function After(g: Manager, s: Both, events: seq<Event>): Both
    decreases |events|
  {
    if events == [] then s else After(g, Apply(g, s, events[0]), events[1..])
  }

  function LastAt(events: seq<Event>, since: Time): Time {
    if events == [] then since else events[|events| - 1].at
  }

  // ---------------------------------------------------------------------------------------------
  // The refinement relation
  // ---------------------------------------------------------------------------------------------

  ghost predicate Same(g: Manager, row: Row, e: Entry) {
    g.HolderOf(row) == Some(e.holder) && row.attempts == e.attempts
  }

  /** The second in which the token expires, as the table records it. */
  function Floor(expires: Time): Time {
    FromUnix(Unix(expires))
  }

  ghost predicate Related(g: Manager, s: Both, token: string, now: Time) {
    var key := g.KeyOf(token);
    if token !in s.minted then token !in s.mem && key !in s.rows && token !in s.late
    else
      var x := s.minted[token];
      && token != "" && Unix(x) != 0
      && (token in s.mem ==> s.mem[token].expires == x)
      && (key in s.rows ==> s.rows[key].expiresAt == Unix(x))
      && (token in s.late ==> token !in s.mem && Floor(x) <= now)
      && (key in s.rows && now <= Floor(x) ==>
            token in s.late || (token in s.mem && Same(g, s.rows[key], s.mem[token])))
      && (token in s.mem && now < Floor(x) ==> key in s.rows)
  }

  lemma FloorBounds(x: Time)
    requires Unix(x) != 0
    ensures Floor(x) == Unix(x) * SECOND && Floor(x) <= x < Floor(x) + SECOND
  {
  }

  lemma SweepKeeps(x: Time, now: Time)
    requires Unix(x) != 0 && now < Floor(x) && now != ZERO_TIME
    ensures Unix(x) > Unix(now)
  {
  }

  lemma RelatedById(g: Manager, s: Both, e: Event, token: string, since: Time)
    requires Related(g, s, token, since) && Enabled(g, s, e) && ZERO_TIME < since <= e.at
    requires e.RevokeById?
    ensures Related(g, Apply(g, s, e), token, e.at)
  {
    hide Same, HashToken, Floor, SessionID;
    if token in s.minted {
      SameSessionID(g.sha, token);
      FloorBounds(s.minted[token]);
      if e.at < Floor(s.minted[token]) {
        SweepKeeps(s.minted[token], e.at);
      }
    }
  }

  lemma RelatedMint(g: Manager, s: Both, e: Event, token: string, since: Time)
    requires Related(g, s, token, since) && Enabled(g, s, e) && ZERO_TIME < since <= e.at
    requires e.Mint? && (e.token == token || g.KeyOf(e.token) != g.KeyOf(token))
    ensures Related(g, Apply(g, s, e), token, e.at)
  {
    hide HashToken, Floor;
    if token in s.minted {
      FloorBounds(s.minted[token]);
    }
    FloorBounds(e.expires);
  }

  lemma RelatedUse(g: Manager, s: Both, e: Event, token: string, since: Time)
    requires Related(g, s, token, since) && Enabled(g, s, e) && ZERO_TIME < since <= e.at
    requires (e.Look? || e.Try? || e.Drop?) && (e.token == token || g.KeyOf(e.token) != g.KeyOf(token))
    ensures Related(g, Apply(g, s, e), token, e.at)
  {
    hide HashToken, Floor, SessionID;
    if token in s.minted {
      FloorBounds(s.minted[token]);
    }
  }

  lemma RelatedSweep(g: Manager, s: Both, e: Event, token: string, since: Time)
    requires Related(g, s, token, since) && Enabled(g, s, e) && ZERO_TIME < since <= e.at
    requires e.Sweep? || e.OthersSweep? || e.OthersPut?
    ensures Related(g, Apply(g, s, e), token, e.at)
  {
    hide Same, HashToken, Floor, SessionID;
    if token in s.minted {
      FloorBounds(s.minted[token]);
      if e.at < Floor(s.minted[token]) {
        SweepKeeps(s.minted[token], e.at);
      }
    }
  }

  lemma RelatedOthers(g: Manager, s: Both, e: Event, token: string, since: Time)
    requires Related(g, s, token, since) && Enabled(g, s, e) && ZERO_TIME < since <= e.at
    requires e.RevokeOthers? && (e.keep == token || g.KeyOf(e.keep) != g.KeyOf(token))
    ensures Related(g, Apply(g, s, e), token, e.at)
  {
    hide Same, HashToken, Floor, SessionID;
  }

  lemma RelatedStep(g: Manager, s: Both, e: Event, token: string, since: Time)
    requires Related(g, s, token, since) && Enabled(g, s, e) && since <= e.at
    requires ZERO_TIME < since
    requires ToldApart(g, [e], token)
    ensures Related(g, Apply(g, s, e), token, e.at)
  {
    assert [e][0] == e;
    hide Related, Enabled, Apply;
    match e
    case RevokeById(_, _, _) => RelatedById(g, s, e, token, since);
    case Mint(_, _, _, _, _) => RelatedMint(g, s, e, token, since);
    case RevokeOthers(_, _, _) => RelatedOthers(g, s, e, token, since);
    case Look(_, _) => RelatedUse(g, s, e, token, since);
    case Try(_, _) => RelatedUse(g, s, e, token, since);
    case Drop(_, _) => RelatedUse(g, s, e, token, since);
    case _ => RelatedSweep(g, s, e, token, since);
  }

  // ---------------------------------------------------------------------------------------------
  // The theorems
  // ---------------------------------------------------------------------------------------------

  const FRESH: Both := Both(map[], map[], map[], {})

  /** The token an event names. */
  function Named(e: Event): Option<string> {
    if e.Mint? || e.Look? || e.Try? || e.Drop? then Some(e.token)
    else if e.RevokeOthers? then Some(e.keep)
    else None
  }

  /** The digest tells every token of a history from `token`. */
  ghost predicate ToldApart(g: Manager, events: seq<Event>, token: string) {
    forall k :: 0 <= k < |events| && Named(events[k]).Some? ==>
      Named(events[k]).value == token || g.KeyOf(Named(events[k]).value) != g.KeyOf(token)
  }

  lemma {:induction false} RelatedRun(g: Manager, s: Both, events: seq<Event>, token: string, since: Time)
    requires Related(g, s, token, since) && Legal(g, s, events, since)
    requires ZERO_TIME < since && ToldApart(g, events, token)
    ensures Related(g, After(g, s, events), token, LastAt(events, since))
    ensures since <= LastAt(events, since)
    decreases |events|
  {
    if events != [] {
      var rest := events[1..];
      assert [events[0]][0] == events[0] && forall k :: 0 <= k < |rest| ==> rest[k] == events[k + 1];
      RelatedStep(g, s, events[0], token, since);
      RelatedRun(g, Apply(g, s, events[0]), rest, token, events[0].at);
    }
  }

  /** Two answers about a token minted with expiry `x`, given at instant `t`. */
  ghost predicate Agree(mem: Option<Holder>, shared: Option<Holder>, x: Time, t: Time) {
    && (shared.Some? ==> mem == shared)
    && (t < Floor(x) ==> mem == shared)
    && (t > Floor(x) ==> shared == None)
    && (t > x ==> mem == None)
  }

  /** After every history the two implementations answer alike about a token, except from the second of its expiry
      to the expiry itself, where the store-backed one rejects earlier; about other tokens both say no.  A token that
      was revoked by its ID in the very instant of that second is gone from memory at once, and from the table after
      that instant. */
  lemma StoreRefinesMap(g: Manager, events: seq<Event>, token: string, since: Time, t: Time)
    requires ZERO_TIME < since && Legal(g, FRESH, events, since) && ToldApart(g, events, token)
    requires LastAt(events, since) <= t
    ensures var s := After(g, FRESH, events);
            if token in s.minted && token !in s.late then
              && Agree(MemLookup(s.mem, token, t).1, g.Lookup(s.rows, token, t).1, s.minted[token], t)
              && Agree(MemVerify(s.mem, token, t).1, g.Verify(s.rows, token, t).1, s.minted[token], t)
            else
              && MemLookup(s.mem, token, t).1 == MemVerify(s.mem, token, t).1 == None
              && ((token in s.minted && t == Floor(s.minted[token])) ||
                  g.Lookup(s.rows, token, t).1 == g.Verify(s.rows, token, t).1 == None)
  {
    var s := After(g, FRESH, events);
    RelatedRun(g, FRESH, events, token, since);
    if token in s.minted {
      FloorBounds(s.minted[token]);
    }
  }

  predicate OnlyInMemory(g: Manager, s: Both, token: string, t: Time)
    requires token in s.minted
  {
    var x := s.minted[token];
    token in s.mem && t <= x && (t > Floor(x) || (t == Floor(x) && g.KeyOf(token) !in s.rows))
  }

  predicate OnlyInTable(g: Manager, s: Both, token: string, t: Time)
    requires token in s.minted
  {
    var key := g.KeyOf(token);
    token in s.late && t == Floor(s.minted[token]) && key in s.rows && g.HolderOf(s.rows[key]).Some?
  }

  /** Exactly when the two differ about a token: when memory still holds it after the second of its expiry and not after
      the expiry, or in the first instant of that second if a sweep in it took the row away; and when the table still
      holds it in that instant although it was revoked by its ID in it.  Attempts differ likewise while any are left. */
  lemma WhenTheyDiffer(g: Manager, events: seq<Event>, token: string, since: Time, t: Time)
    requires ZERO_TIME < since && Legal(g, FRESH, events, since) && ToldApart(g, events, token)
    requires LastAt(events, since) <= t
    requires token in After(g, FRESH, events).minted
    ensures var s := After(g, FRESH, events);
            MemLookup(s.mem, token, t).1 != g.Lookup(s.rows, token, t).1
            <==> OnlyInMemory(g, s, token, t) || OnlyInTable(g, s, token, t)
    ensures var s := After(g, FRESH, events);
            MemVerify(s.mem, token, t).1 != g.Verify(s.rows, token, t).1
            <==> (OnlyInMemory(g, s, token, t) && s.mem[token].attempts < MAX_PENDING_ATTEMPTS)
                 || (OnlyInTable(g, s, token, t) && s.rows[g.KeyOf(token)].attempts < MAX_PENDING_ATTEMPTS)
  {
    var s := After(g, FRESH, events);
    RelatedRun(g, FRESH, events, token, since);
    FloorBounds(s.minted[token]);
  }

  /** The two can differ: half a second before its expiry the token is refused by the table alone. */
  lemma EarlyRejection(g: Manager, token: string, holder: Holder, sealed: string)
    requires token != "" && g.open(sealed) == Some(holder.secret)
    ensures var history := [Mint(token, holder, sealed, 2_500_000_000, 1_000_000_000)];
            var s := After(g, FRESH, history);
            && Legal(g, FRESH, history, 0)
            && MemLookup(s.mem, token, 2_200_000_000).1 == Some(holder)
            && g.Lookup(s.rows, token, 2_200_000_000).1 == None
  {
    var e := Mint(token, holder, sealed, 2_500_000_000, 1_000_000_000);
    assert [e][1..] == [];
    assert After(g, FRESH, [e]) == Apply(g, FRESH, e);
  }

  /** A token expiring in the first second of 1970 is stored as 0, which reads back as the zero time: the table
      refuses it at once. */
  lemma FirstSecondOf1970IsLost(g: Manager, token: string, holder: Holder, sealed: string)
    requires token != ""
    ensures var s := Apply(g, FRESH, Mint(token, holder, sealed, 500_000_000, -SECOND));
            && MemLookup(s.mem, token, -SECOND).1 == Some(holder)
            && g.Lookup(s.rows, token, -SECOND).1 == None
  {
  }

  lemma RevokedStep(g: Manager, s: Both, e: Event, token: string)
    requires Enabled(g, s, e) && token in s.minted && token !in s.mem && g.KeyOf(token) !in s.rows
    requires ToldApart(g, [e], token)
    ensures token in Apply(g, s, e).minted && token !in Apply(g, s, e).mem && g.KeyOf(token) !in Apply(g, s, e).rows
  {
    assert [e][0] == e;
  }

  /** A token once removed - logged out, revoked, consumed or used up - is refused by both for ever after. */
  lemma {:induction false} RevokedForever(g: Manager, s: Both, events: seq<Event>, token: string, since: Time, t: Time)
    requires Legal(g, s, events, since) && ToldApart(g, events, token)
    requires token in s.minted && token !in s.mem && g.KeyOf(token) !in s.rows
    ensures var s' := After(g, s, events);
            && MemLookup(s'.mem, token, t).1 == g.Lookup(s'.rows, token, t).1 == None
            && MemVerify(s'.mem, token, t).1 == g.Verify(s'.rows, token, t).1 == None
    decreases |events|
  {
    if events != [] {
      var e, rest := events[0], events[1..];
      assert [e][0] == e && forall k :: 0 <= k < |rest| ==> rest[k] == events[k + 1];
      RevokedStep(g, s, e, token);
      RevokedForever(g, Apply(g, s, e), rest, token, e.at, t);
    }
  }

  /** Logging a token out, or revoking all but another one, ends it: both refuse it after any continuation. */
  lemma RevocationIsFinal(g: Manager, s: Both, e: Event, events: seq<Event>, token: string, since: Time, t: Time)
    requires Legal(g, s, [e] + events, since) && ToldApart(g, [e] + events, token)
    requires token in s.minted && Related(g, s, token, since)
    requires (e.Drop? && e.token == token) || (e.RevokeOthers? && e.keep != token)
    ensures var s' := After(g, s, [e] + events);
            && MemLookup(s'.mem, token, t).1 == g.Lookup(s'.rows, token, t).1 == None
            && MemVerify(s'.mem, token, t).1 == g.Verify(s'.rows, token, t).1 == None
  {
    hide HashToken;
    var run := [e] + events;
    assert run[0] == e && run[1..] == events;
    assert forall k :: 0 <= k < |events| ==> events[k] == run[k + 1];
    var s1 := Apply(g, s, e);
    assert g.KeyOf(token).kind == g.kind;
    assert g.KeyOf(token) !in s1.rows;
    RevokedForever(g, s1, events, token, e.at, t);
  }

  /** Every row of the manager, and every entry in memory, is that of a token it minted. */
  ghost predicate Owned(g: Manager, s: Both) {
    && s.mem.Keys <= s.minted.Keys
    && forall key :: key in s.rows && key.kind == g.kind ==> exists token :: token in s.minted && key == g.KeyOf(token)
  }

  lemma OwnedStep(g: Manager, s: Both, e: Event)
    requires Owned(g, s) && Enabled(g, s, e)
    ensures Owned(g, Apply(g, s, e))
  {
    var t := Apply(g, s, e);
    assert forall token :: token in s.minted ==> token in t.minted;
    forall key | key in t.rows && key.kind == g.kind
      ensures exists token :: token in t.minted && key == g.KeyOf(token)
    {
      if key in s.rows {
        var token :| token in s.minted && key == g.KeyOf(token);
        assert token in t.minted;
      } else {
        assert e.Mint? && e.token in t.minted && key == g.KeyOf(e.token);
      }
    }
  }

  lemma {:induction false} OwnedRun(g: Manager, s: Both, events: seq<Event>, since: Time)
    requires Owned(g, s) && Legal(g, s, events, since)
    ensures Owned(g, After(g, s, events))
    decreases |events|
  {
    if events != [] {
      OwnedStep(g, s, events[0]);
      OwnedRun(g, Apply(g, s, events[0]), events[1..], events[0].at);
    }
  }

  /** While the table still lists it, revoking a token by its ID is logging that one token out, in both. */
  lemma RevokeByIdIsLogout(g: Manager, s: Both, subject: string, id: string, at: Time, token: string, since: Time)
    requires Owned(g, s) && Related(g, s, token, since) && Enabled(g, s, RevokeById(subject, id, at))
    requires token in s.minted && SessionID(g.sha, token) == id
    requires ZERO_TIME < since <= at < Floor(s.minted[token])
    ensures var t, u := Apply(g, s, RevokeById(subject, id, at)), Apply(g, s, Drop(token, at));
            t.mem == u.mem && t.rows == u.rows
  {
    hide Same, SessionID;
    var t, u := Apply(g, s, RevokeById(subject, id, at)), Apply(g, s, Drop(token, at));
    FloorBounds(s.minted[token]);
    SweepKeeps(s.minted[token], at);
    SameSessionID(g.sha, token);
    forall key | key in s.rows ensures Listable(key, s.rows[key], g.kind, subject, id, at) <==> key == g.KeyOf(token) {
      if key.kind == g.kind {
        var other :| other in s.minted && key == g.KeyOf(other);
        SameSessionID(g.sha, other);
      }
    }
  }

  /** A token revoked by its ID is refused by memory after every continuation, and by the table too, unless both the
      revocation and the look-up fall in the first instant of the second of its expiry. */
  lemma RevocationByIdIsFinal(g: Manager, s: Both, e: Event, events: seq<Event>, token: string, since: Time, t: Time)
    requires ZERO_TIME < since && Legal(g, s, [e] + events, since) && ToldApart(g, [e] + events, token)
    requires token in s.minted && Related(g, s, token, since) && LastAt([e] + events, since) <= t
    requires e.RevokeById? && e.id == SessionID(g.sha, token)
    ensures var s' := After(g, s, [e] + events);
            && MemLookup(s'.mem, token, t).1 == MemVerify(s'.mem, token, t).1 == None
            && (e.at == t == Floor(s.minted[token]) ||
                g.Lookup(s'.rows, token, t).1 == g.Verify(s'.rows, token, t).1 == None)
  {
    hide HashToken, SessionID, Floor, Same;
    var run := [e] + events;
    assert run[0] == e && run[1..] == events;
    assert forall k :: 0 <= k < |events| ==> events[k] == run[k + 1];
    var s1, x := Apply(g, s, e), s.minted[token];
    FloorBounds(x);
    SameSessionID(g.sha, token);
    assert [e][0] == e;
    RelatedStep(g, s, e, token, since);
    GoneFromMemory(g, s1, events, token, e.at);
    RelatedRun(g, s1, events, token, e.at);
    if e.at < Floor(x) {
      SweepKeeps(x, e.at);
      RevokedForever(g, s1, events, token, e.at, t);
    }
  }

  lemma {:induction false} GoneFromMemory(g: Manager, s: Both, events: seq<Event>, token: string, since: Time)
    requires Legal(g, s, events, since) && token in s.minted && token !in s.mem
    ensures var s' := After(g, s, events); token !in s'.mem && token in s'.minted && s'.minted[token] == s.minted[token]
    decreases |events|
  {
    if events != [] {
      GoneFromMemory(g, Apply(g, s, events[0]), events[1..], token, events[0].at);
    }
  }

  /** The exception is real: revoked by ID on the second, the token still passes the table in that instant. */
  lemma RevokedButFoundOnTheSecond(g: Manager, token: string, holder: Holder, sealed: string)
    requires token != "" && g.open(sealed) == Some(holder.secret) && |g.sha(token)| >= 8
    ensures var history := [Mint(token, holder, sealed, 2_500_000_000, 1_000_000_000),
                            RevokeById(holder.subject, SessionID(g.sha, token), 2_000_000_000)];
            var s := After(g, FRESH, history);
            && Legal(g, FRESH, history, 0)
            && MemLookup(s.mem, token, 2_000_000_000).1 == None
            && g.Lookup(s.rows, token, 2_000_000_000).1 == Some(holder)
  {
    var e := Mint(token, holder, sealed, 2_500_000_000, 1_000_000_000);
    var r := RevokeById(holder.subject, SessionID(g.sha, token), 2_000_000_000);
    var s1 := Apply(g, FRESH, e);
    hide SessionID, HashToken;
    assert [e, r][1..] == [r] && [r][1..] == [];
    assert After(g, s1, [r]) == Apply(g, s1, r);
    assert Enabled(g, s1, r) && Legal(g, Apply(g, s1, r), [], r.at);
    assert Legal(g, s1, [r], e.at);
  }

  /** Revoking all but `keep` leaves `keep` itself, and every row of another manager or subject, as it was; at one
      instant both implementations still answer for `keep` as before. */
  lemma RevocationIsScoped(g: Manager, s: Both, subject: string, keep: string, at: Time, t: Time)
    ensures var s' := Apply(g, s, RevokeOthers(subject, keep, at));
            && MemLookup(s'.mem, keep, t).1 == MemLookup(s.mem, keep, t).1
            && g.Lookup(s'.rows, keep, t).1 == g.Lookup(s.rows, keep, t).1
            && (forall key :: key in s'.rows ==> key in s.rows && s'.rows[key] == s.rows[key])
            && (forall key :: key in s.rows && key !in s'.rows <==>
                  key in s.rows && key.kind == g.kind && s.rows[key].subject == subject && key != g.KeyOf(keep))
  {
  }

  /** Sweeping the table never changes a later look-up. */
  lemma SweepUnseenLater(g: Manager, rows: Table, token: string, swept: Time, t: Time)
    requires ZERO_TIME < swept < t
    ensures g.Lookup(Swept(rows, swept), token, t).1 == g.Lookup(rows, token, t).1
  {
    var key := g.KeyOf(token);
    if key in rows && rows[key].expiresAt <= Unix(swept) {
      UnixBounds(swept);
    }
  }

  /** The answers to successive attempts on one token. */
  function Tries(m: Memory, token: string, times: seq<Time>): (r: seq<bool>)
    ensures |r| == |times|
    decreases |times|
  {
    if times == [] then []
    else [MemVerify(m, token, times[0]).1.Some?] + Tries(MemVerify(m, token, times[0]).0, token, times[1..])
  }

  /** Of any number of attempts before the expiry, exactly the first five succeed. */
  lemma {:induction false} ExactlyFiveTries(m: Memory, token: string, times: seq<Time>, k: nat)
    requires token != "" && (token in m ==> m[token].attempts <= 5)
    requires token in m ==> forall j :: 0 <= j < |times| ==> times[j] <= m[token].expires
    requires k < |times|
    ensures Tries(m, token, times)[k] <==> token in m && m[token].attempts + k < 5
    decreases |times|
  {
    var next := MemVerify(m, token, times[0]).0;
    if k > 0 {
      assert forall j :: 0 <= j < |times[1..]| ==> times[1..][j] == times[j + 1];
      ExactlyFiveTries(next, token, times[1..], k - 1);
    }
  }

  /** The same answers given by the table. */
  function TableTries(g: Manager, rows: Table, token: string, times: seq<Time>): (r: seq<bool>)
    ensures |r| == |times|
    decreases |times|
  {
    if times == [] then []
    else [g.Verify(rows, token, times[0]).1.Some?] + TableTries(g, g.Verify(rows, token, times[0]).0, token, times[1..])
  }

  /** By the table too, for attempts up to the second of the expiry. */
  lemma {:induction false} ExactlyFiveTableTries(g: Manager, rows: Table, token: string, times: seq<Time>, k: nat)
    requires var key := g.KeyOf(token);
             token != "" && (key in rows ==> rows[key].attempts <= 5 && g.open(rows[key].secret).Some?)
    requires var key := g.KeyOf(token);
             key in rows ==> forall j :: 0 <= j < |times| ==> times[j] <= FromUnix(rows[key].expiresAt)
    requires k < |times|
    ensures TableTries(g, rows, token, times)[k]
       <==> g.KeyOf(token) in rows && rows[g.KeyOf(token)].attempts + k < 5
    decreases |times|
  {
    hide HashToken;
    var next := g.Verify(rows, token, times[0]).0;
    if k > 0 {
      assert forall j :: 0 <= j < |times[1..]| ==> times[1..][j] == times[j + 1];
      ExactlyFiveTableTries(g, next, token, times[1..], k - 1);
    }
  }

  // ---------------------------------------------------------------------------------------------
  // Kinds apart, and what a sweep removes
  // ---------------------------------------------------------------------------------------------

  /** The same answers, to look-ups and to attempts, about every token at every instant. */
  ghost predicate AnswersAs(g: Manager, rows: Table, other: Table) {
    forall token, t ::
      && g.Lookup(rows, token, t).1 == g.Lookup(other, token, t).1
      && g.Verify(rows, token, t).1 == g.Verify(other, token, t).1
  }

  /** Managers of other kinds answer as before. */
  ghost predicate OthersUnmoved(kind: string, rows: Table, before: Table) {
    forall g: Manager :: g.kind != kind ==> AnswersAs(g, rows, before)
  }

  /** A fresh token stands for its holder until its time has come, and for nobody after. */
  ghost predicate StandsFor(m: Memory, token: string, holder: Holder, until: Time) {
    forall t :: MemLookup(m, token, t).1 == MemVerify(m, token, t).1 == if t <= until then Some(holder) else None
  }

  /** The same in the table, to the second. */
  ghost predicate RowStandsFor(g: Manager, rows: Table, token: string, holder: Holder, until: Time) {
    forall t ::
      g.Lookup(rows, token, t).1 == g.Verify(rows, token, t).1 == if t <= Floor(until) then Some(holder) else None
  }

  lemma OthersStay(kind: string, rows: Table, before: Table)
    requires forall key: Key :: key.kind != kind ==> (key in rows <==> key in before)
    requires forall key: Key :: key.kind != kind && key in rows && key in before ==> rows[key] == before[key]
    ensures OthersUnmoved(kind, rows, before)
  {
    forall g: Manager | g.kind != kind ensures AnswersAs(g, rows, before) {
      OtherKindsUnseen(g, rows, before);
    }
  }

  /** What happens to rows of another kind is nothing to a manager. */
  lemma OtherKindsUnseen(g: Manager, rows: Table, other: Table)
    requires forall key: Key :: key.kind == g.kind ==> (key in rows <==> key in other)
    requires forall key: Key :: key.kind == g.kind && key in rows && key in other ==> rows[key] == other[key]
    ensures AnswersAs(g, rows, other)
  {
    hide HashToken;
    forall token, t
      ensures g.Lookup(rows, token, t).1 == g.Lookup(other, token, t).1
      ensures g.Verify(rows, token, t).1 == g.Verify(other, token, t).1
    {
      var key := g.KeyOf(token);
      assert key in rows <==> key in other;
    }
  }

  /** Every operation on a manager's rows moves none of another kind. */
  lemma OperationsStay(g: Manager, rows: Table, token: string, now: Time)
    ensures OthersUnmoved(g.kind, g.Lookup(rows, token, now).0, rows)
    ensures OthersUnmoved(g.kind, g.Verify(rows, token, now).0, rows)
    ensures OthersUnmoved(g.kind, VerifyPending(rows, g.KeyOf(token), now).0, rows)
    ensures OthersUnmoved(g.kind, Without(rows, g.KeyOf(token)), rows)
  {
    hide OthersUnmoved, HashToken;
    OthersStay(g.kind, g.Lookup(rows, token, now).0, rows);
    OthersStay(g.kind, g.Verify(rows, token, now).0, rows);
    OthersStay(g.kind, VerifyPending(rows, g.KeyOf(token), now).0, rows);
    OthersStay(g.kind, Without(rows, g.KeyOf(token)), rows);
  }

  lemma RemovalsStay(rows: Table, kind: string, subject: string, keep: string, key: Key)
    ensures OthersUnmoved(kind, WithoutSubject(rows, kind, subject, keep), rows)
    ensures key.kind == kind ==> OthersUnmoved(kind, Without(rows, key), rows)
    ensures OthersUnmoved(kind, rows, rows)
  {
    hide OthersUnmoved;
    OthersStay(kind, WithoutSubject(rows, kind, subject, keep), rows);
    OthersStay(kind, rows, rows);
    if key.kind == kind {
      OthersStay(kind, Without(rows, key), rows);
    }
  }

  lemma PutStays(g: Manager, rows: Table, token: string, row: Row)
    ensures OthersUnmoved(g.kind, rows[g.KeyOf(token) := row], rows)
  {
    OthersStay(g.kind, rows[g.KeyOf(token) := row], rows);
  }

  /** No entry that has expired is left after a sweep, in memory or in the table, and every other is. */
  lemma SweptExactly(m: Memory, rows: Table, now: Time)
    requires now >= 0
    ensures forall token :: token in MemSweep(m, now) <==> token in m && !(now > m[token].expires)
    ensures forall token :: token in MemSweep(m, now) ==> MemSweep(m, now)[token] == m[token]
    ensures forall key :: key in rows && Expired(rows[key], now) ==> key !in Swept(rows, now)
    ensures forall key :: key in rows && rows[key].expiresAt * SECOND > now ==>
              key in Swept(rows, now) && Swept(rows, now)[key] == rows[key]
    ensures forall key :: key in Swept(rows, now) ==> key in rows
  {
  }
}
