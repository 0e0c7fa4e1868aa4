/** The session managers that hold state: auth.Authenticator, webmail.Sessions and domainadmin.Sessions, each with its
    in-process maps and its optional shared store.  Every method is tied to the operation of SessionRefinement it
    performs. */
module Sessions {
  import opened Options
  import opened Clock
  import opened SessionStore
  import opened SessionRefinement

  const KIND_SESSION: string := "admin_session"
  const KIND_PENDING: string := "admin_pending"
  const KIND_DOMAIN: string := "domainadmin_session"
  const PENDING_TTL: int := 300 * SECOND

  const WEBMAIL_SESSION: string := "webmail_session"
  const WEBMAIL_PENDING: string := "webmail_pending"

  /** No two managers share a kind. */
  lemma KindsDiffer()
    ensures var kinds := [KIND_SESSION, KIND_PENDING, KIND_DOMAIN, WEBMAIL_SESSION, WEBMAIL_PENDING];
            forall j, k :: 0 <= j < k < |kinds| ==> kinds[j] != kinds[k]
  {
    assert KIND_SESSION[0] == 'a' == KIND_PENDING[0] && KIND_SESSION[6] == 's' && KIND_PENDING[6] == 'p';
    assert KIND_DOMAIN[0] == 'd';
    assert WEBMAIL_SESSION[0] == 'w' == WEBMAIL_PENDING[0];
    assert WEBMAIL_SESSION[8] == 's' && WEBMAIL_PENDING[8] == 'p';
  }

  /** The administrators' tokens hold no secret: what is stored opens to itself. */
  function Plain(kind: string, sha: string -> seq<Byte>): Manager {
    Manager(kind, sha, s => Some(s))
  }

  lemma OneEntryLess<T>(m: map<string, T>, token: string)
    requires token in m
    ensures |m - {token}| == |m| - 1
  {
    assert m.Keys == (m - {token}).Keys + {token};
  }

  class Authenticator {
    const user: string
    const ttl: int
    const sha: string -> seq<Byte>
    const store: Store?
    var sessions: Memory
    var pendings: Memory

    constructor (user: string, ttl: int, sha: string -> seq<Byte>, store: Store?)
      requires store != null ==> store.sha == sha
      ensures this.user == user && this.ttl == ttl && this.sha == sha && this.store == store
      ensures sessions == map[] && pendings == map[]
    {
      this.user, this.ttl, this.sha, this.store := user, ttl, sha, store;
      sessions, pendings := map[], map[];
    }

    /** The store hashes as this manager does. */
    ghost predicate Valid() {
      store != null ==> store.sha == sha
    }

    function Sessions(): Manager { Plain(KIND_SESSION, sha) }

    function Pendings(): Manager { Plain(KIND_PENDING, sha) }

    /** Sessions and pending tokens have kinds of their own. */
    lemma PendingApart()
      ensures forall rows, before :: OthersUnmoved(KIND_PENDING, rows, before) ==> AnswersAs(Sessions(), rows, before)
    {
      KindsDiffer();
    }

    lemma SessionsApart()
      ensures forall rows, before :: OthersUnmoved(KIND_SESSION, rows, before) ==> AnswersAs(Pendings(), rows, before)
    {
      KindsDiffer();
    }

    ghost function Footprint(): set<object> {
      if store != null then {this, store} else {this}
    }

    method MintSession(token: string, meta: string, now: Time)
      requires Valid()
      modifies Footprint()
      ensures pendings == old(pendings)
      ensures store == null ==> sessions == old(sessions)[token := Entry(Holder(user, "", meta), now + ttl, 0)]
      ensures store != null ==> sessions == old(sessions)
      ensures store != null ==>
                store.rows == old(store.rows)[
                  Sessions().KeyOf(token) := Row(user, "", meta, 0, Unix(now), Unix(now + ttl))]
      ensures store != null ==> OthersUnmoved(KIND_SESSION, store.rows, old(store.rows))
      ensures store != null ==> AnswersAs(Pendings(), store.rows, old(store.rows))
      ensures store == null && token != "" ==> StandsFor(sessions, token, Holder(user, "", meta), now + ttl)
      ensures store != null && token != "" && Unix(now + ttl) != 0 ==>
                RowStandsFor(Sessions(), store.rows, token, Holder(user, "", meta), now + ttl)
    {
      if store != null {
        store.Put(token, KIND_SESSION, user, "", meta, now, now + ttl);
        return;
      }
      sessions := sessions[token := Entry(Holder(user, "", meta), now + ttl, 0)];
    }

    method IssuePending(token: string, now: Time)
      requires Valid()
      modifies Footprint()
      ensures sessions == old(sessions)
      ensures store == null ==> pendings == old(pendings)[token := Entry(Holder(user, "", ""), now + PENDING_TTL, 0)]
      ensures store != null ==> pendings == old(pendings)
      ensures store != null ==>
                store.rows == old(store.rows)[
                  Pendings().KeyOf(token) := Row(user, "", "", 0, Unix(now), Unix(now + PENDING_TTL))]
      ensures store != null ==> OthersUnmoved(KIND_PENDING, store.rows, old(store.rows))
      ensures store != null ==> AnswersAs(Sessions(), store.rows, old(store.rows))
      ensures store == null && token != "" ==> StandsFor(pendings, token, Holder(user, "", ""), now + 300_000_000_000)
      ensures store != null && token != "" && Unix(now + 300_000_000_000) != 0 ==>
                RowStandsFor(Pendings(), store.rows, token, Holder(user, "", ""), now + 300_000_000_000)
    {
      if store != null {
        store.Put(token, KIND_PENDING, user, "", "", now, now + PENDING_TTL);
        return;
      }
      pendings := pendings[token := Entry(Holder(user, "", ""), now + PENDING_TTL, 0)];
    }

    method VerifyPending(token: string, now: Time) returns (subject: Option<string>)
      requires Valid()
      modifies Footprint()
      ensures sessions == old(sessions)
      ensures store == null ==>
                var (m, h) := MemVerify(old(pendings), token, now);
                pendings == m && (subject == if h.None? then None else Some(h.value.subject))
      ensures store != null ==> pendings == old(pendings)
      ensures store != null && token == "" ==> subject == None && store.rows == old(store.rows)
      ensures store != null && token != "" ==>
                (store.rows, subject) == SessionRefinement.VerifyPending(old(store.rows), Pendings().KeyOf(token), now)
      ensures store != null ==> OthersUnmoved(KIND_PENDING, store.rows, old(store.rows))
      ensures store != null ==> AnswersAs(Sessions(), store.rows, old(store.rows))
    {
      hide OthersUnmoved, AnswersAs;
      PendingApart();
      if store != null {
        OperationsStay(Pendings(), store.rows, token, now);
        RemovalsStay(store.rows, KIND_PENDING, user, "", Pendings().KeyOf(token));
      }
      if token == "" {
        return None;
      }
      if store != null {
        var attempt := store.IncrementAttempts(token, KIND_PENDING, now);
        if attempt.None? {
          return None;
        }
        if attempt.value.attempts > MAX_PENDING_ATTEMPTS {
          store.Delete(token, KIND_PENDING);
          return None;
        }
        return Some(attempt.value.subject);
      }
      if token !in pendings {
        return None;
      }
      if now > pendings[token].expires {
        pendings := pendings - {token};
        return None;
      }
      pendings := pendings[token := pendings[token].(attempts := pendings[token].attempts + 1)];
      if pendings[token].attempts > MAX_PENDING_ATTEMPTS {
        pendings := pendings - {token};
        assert pendings == old(pendings) - {token};
        return None;
      }
      return Some(pendings[token].holder.subject);
    }

    method ConsumePending(token: string)
      requires Valid()
      modifies Footprint()
      ensures sessions == old(sessions)
      ensures store == null ==> pendings == old(pendings) - {token}
      ensures store != null ==> pendings == old(pendings)
      ensures store != null ==> store.rows == Without(old(store.rows), Pendings().KeyOf(token))
      ensures store != null ==> OthersUnmoved(KIND_PENDING, store.rows, old(store.rows))
      ensures store != null ==> AnswersAs(Sessions(), store.rows, old(store.rows))
    {
      hide OthersUnmoved, AnswersAs;
      PendingApart();
      if store != null {
        OperationsStay(Pendings(), store.rows, token, 0);
      }
      if store != null {
        store.Delete(token, KIND_PENDING);
        return;
      }
      pendings := pendings - {token};
    }

    method Validate(token: string, now: Time) returns (holder: Option<Holder>)
      requires Valid()
      modifies Footprint()
      ensures pendings == old(pendings)
      ensures store == null ==> (sessions, holder) == MemLookup(old(sessions), token, now)
      ensures store != null ==> sessions == old(sessions)
      ensures store != null ==> (store.rows, holder) == Sessions().Lookup(old(store.rows), token, now)
      ensures store != null ==> OthersUnmoved(KIND_SESSION, store.rows, old(store.rows))
      ensures store != null ==> AnswersAs(Pendings(), store.rows, old(store.rows))
    {
      hide OthersUnmoved, AnswersAs;
      SessionsApart();
      if store != null {
        OperationsStay(Sessions(), store.rows, token, now);
        RemovalsStay(store.rows, KIND_SESSION, user, "", Sessions().KeyOf(token));
      }
      if token == "" {
        return None;
      }
      if store != null {
        var row := store.Get(token, KIND_SESSION, now);
        if row.None? {
          return None;
        }
        return Some(Holder(row.value.subject, row.value.secret, row.value.meta));
      }
      if token !in sessions {
        return None;
      }
      if now > sessions[token].expires {
        sessions := sessions - {token};
        return None;
      }
      return Some(sessions[token].holder);
    }

    method Logout(token: string)
      requires Valid()
      modifies Footprint()
      ensures pendings == old(pendings)
      ensures store == null ==> sessions == old(sessions) - {token}
      ensures store != null ==> sessions == old(sessions)
      ensures store != null ==> store.rows == Without(old(store.rows), Sessions().KeyOf(token))
      ensures store != null ==> OthersUnmoved(KIND_SESSION, store.rows, old(store.rows))
      ensures store != null ==> AnswersAs(Pendings(), store.rows, old(store.rows))
    {
      hide OthersUnmoved, AnswersAs;
      SessionsApart();
      if store != null {
        OperationsStay(Sessions(), store.rows, token, 0);
      }
      if store != null {
        store.Delete(token, KIND_SESSION);
        return;
      }
      sessions := sessions - {token};
    }

    /** Logs out one session with the given ID, if there is one; every other session and row stays. */
    method RevokeByID(id: string, now: Time) returns (found: bool)
      requires Valid()
      requires store != null ==> forall key :: key in store.rows ==> |key.hash| >= SESSION_ID_LEN
      modifies Footprint()
      ensures pendings == old(pendings)
      ensures store == null && found ==>
                exists token :: token in old(sessions) && SessionID(sha, token) == id
                  && sessions == old(sessions) - {token}
      ensures store == null && !found ==>
                sessions == old(sessions) && forall token :: token in sessions ==> SessionID(sha, token) != id
      ensures store != null ==> sessions == old(sessions)
      ensures store != null && found ==>
                exists key :: key in old(store.rows) && Listable(key, old(store.rows)[key], KIND_SESSION, user, id, now)
                  && store.rows == Without(old(store.rows), key)
      ensures store != null && !found ==>
                store.rows == old(store.rows)
                && forall key :: key in store.rows ==> !Listable(key, store.rows[key], KIND_SESSION, user, id, now)
      ensures store == null && IdsDiffer(old(sessions).Keys, id) ==> sessions == MemWithoutId(sha, old(sessions), id)
      ensures store != null && ListedOnce(old(store.rows), id, now) ==>
                store.rows == WithoutId(old(store.rows), KIND_SESSION, user, id, now)
      ensures store != null ==> OthersUnmoved(KIND_SESSION, store.rows, old(store.rows))
      ensures store != null ==> AnswersAs(Pendings(), store.rows, old(store.rows))
    {
      hide OthersUnmoved, AnswersAs;
      SessionsApart();
      if store != null {
        RemovalsStay(store.rows, KIND_SESSION, user, "", Sessions().KeyOf(""));
      }
      if store != null {
        var listed := store.ListBySubject(KIND_SESSION, user, now);
        for k := 0 to |listed|
          invariant store.rows == old(store.rows)
          invariant forall j :: 0 <= j < k ==> listed[j].hash[..SESSION_ID_LEN] != id
        {
          var l := listed[k];
          assert l in listed;
          assert Key(l.hash, KIND_SESSION) in store.rows;
          if l.hash[..SESSION_ID_LEN] == id {
            RemovalsStay(store.rows, KIND_SESSION, user, "", Key(l.hash, KIND_SESSION));
            found := store.DeleteByHash(l.hash, KIND_SESSION);
            assert Listable(Key(l.hash, KIND_SESSION), l.row, KIND_SESSION, user, id, now);
            return;
          }
        }
        forall key | key in store.rows && Matches(key, store.rows[key], KIND_SESSION, user)
                     && store.rows[key].expiresAt > Unix(now)
          ensures key.hash[..SESSION_ID_LEN] != id
        {
          assert key == Key(key.hash, KIND_SESSION);
          assert Listed(key.hash, store.rows[key]) in listed;
        }
        return false;
      }
      var tokens := sessions.Keys;
      while tokens != {}
        invariant tokens <= sessions.Keys && sessions == old(sessions)
        invariant forall token :: token in sessions && token !in tokens ==> SessionID(sha, token) != id
        decreases |tokens|
      {
        var token :| token in tokens;
        if SessionID(sha, token) == id {
          sessions := sessions - {token};
          return true;
        }
        tokens := tokens - {token};
      }
      return false;
    }

    /** At most one of the tokens has the ID. */
    ghost predicate IdsDiffer(tokens: set<string>, id: string) {
      forall a, b :: a in tokens && b in tokens && SessionID(sha, a) == SessionID(sha, b) == id ==> a == b
    }

    /** At most one of the rows is listed under the ID. */
    ghost predicate ListedOnce(rows: Table, id: string, now: Time) {
      forall a, b ::
        (a in rows && Listable(a, rows[a], KIND_SESSION, user, id, now)
         && b in rows && Listable(b, rows[b], KIND_SESSION, user, id, now)) ==>
          a == b
    }

    method RevokeAllExcept(keep: string) returns (n: nat)
      requires Valid()
      modifies Footprint()
      ensures pendings == old(pendings)
      ensures store == null ==> sessions == map token | token in old(sessions) && token == keep :: old(sessions)[token]
      ensures store == null ==> n == |old(sessions)| - |sessions|
      ensures store != null ==> sessions == old(sessions)
      ensures store != null ==> store.rows == WithoutSubject(old(store.rows), KIND_SESSION, user, HashToken(sha, keep))
      ensures store != null ==> n == |old(store.rows)| - |store.rows|
      ensures store != null ==> OthersUnmoved(KIND_SESSION, store.rows, old(store.rows))
      ensures store != null ==> AnswersAs(Pendings(), store.rows, old(store.rows))
    {
      hide OthersUnmoved, AnswersAs;
      SessionsApart();
      if store != null {
        RemovalsStay(store.rows, KIND_SESSION, user, HashToken(sha, keep), Sessions().KeyOf(keep));
      }
      if store != null {
        n := store.DeleteBySubjectExcept(KIND_SESSION, user, keep);
        return;
      }
      hide WithoutSubject, HashToken;
      n := 0;
      var tokens := sessions.Keys;
      while tokens != {}
        invariant pendings == old(pendings)
        invariant tokens <= sessions.Keys
        invariant sessions
               == map token | token in old(sessions) && (token in tokens || token == keep) :: old(sessions)[token]
        invariant n == |old(sessions)| - |sessions|
        decreases |tokens|
      {
        var token :| token in tokens;
        if token != keep {
          OneEntryLess(sessions, token);
          sessions := sessions - {token};
          n := n + 1;
        }
        tokens := tokens - {token};
      }
    }

    method GC(now: Time)
      requires Valid()
      modifies Footprint()
      ensures store == null ==> sessions == MemSweep(old(sessions), now) && pendings == MemSweep(old(pendings), now)
      ensures store != null ==> sessions == old(sessions) && pendings == old(pendings)
      ensures store != null ==> store.rows == Swept(old(store.rows), now)
    {
      if store != null {
        store.GC(now);
        return;
      }
      sessions := SweepMap(sessions, now);
      pendings := SweepMap(pendings, now);
    }
  }

  /** The loop of every in-memory GC. */
  method SweepMap(m: Memory, now: Time) returns (kept: Memory)
    ensures kept == MemSweep(m, now)
  {
    kept := m;
    var tokens := m.Keys;
    while tokens != {}
      invariant tokens <= m.Keys
      invariant forall token :: token in kept <==> token in m && (token in tokens || now <= m[token].expires)
      invariant forall token :: token in kept ==> kept[token] == m[token]
      decreases |tokens|
    {
      var token :| token in tokens;
      if now > m[token].expires {
        kept := kept - {token};
      }
      tokens := tokens - {token};
    }
  }

  /** AES-GCM as webmail uses it: what was sealed opens again. */
  datatype Cipher = Cipher(seal: string -> string, open: string -> Option<string>)

  /** webmail.Sessions, whose tokens keep a mailbox password. */
  class WebmailSessions {
    const ttl: int
    const kind: string
    const sha: string -> seq<Byte>
    const cipher: Cipher
    const store: Store?
    var m: Memory

    constructor (ttl: int, kind: string, sha: string -> seq<Byte>, cipher: Cipher, store: Store?)
      requires store != null ==> store.sha == sha
      ensures this.ttl == ttl && this.kind == kind && this.sha == sha && this.cipher == cipher && this.store == store
      ensures m == map[]
    {
      this.ttl, this.kind, this.sha, this.cipher, this.store := ttl, kind, sha, cipher, store;
      m := map[];
    }

    ghost predicate Valid() {
      store != null ==> store.sha == sha
    }

    function Manages(): Manager { Manager(kind, sha, cipher.open) }

    ghost function Footprint(): set<object> {
      if store != null then {this, store} else {this}
    }

    method Mint(token: string, email: string, password: string, actingAs: string, now: Time)
      requires Valid()
      modifies Footprint()
      ensures store == null ==> m == old(m)[token := Entry(Holder(email, password, actingAs), now + ttl, 0)]
      ensures store != null ==> m == old(m)
      ensures store != null ==>
                store.rows == old(store.rows)[
                  Manages().KeyOf(token) :=
                    Row(email, cipher.seal(password), actingAs, 0, Unix(now), Unix(now + ttl))]
      ensures store != null ==> OthersUnmoved(kind, store.rows, old(store.rows))
      ensures store == null && token != "" ==> StandsFor(m, token, Holder(email, password, actingAs), now + ttl)
      ensures store != null && token != "" && Unix(now + ttl) != 0
              && cipher.open(cipher.seal(password)) == Some(password) ==>
                RowStandsFor(Manages(), store.rows, token, Holder(email, password, actingAs), now + ttl)
    {
      if store != null {
        var sealed := cipher.seal(password);
        store.Put(token, kind, email, sealed, actingAs, now, now + ttl);
        return;
      }
      m := m[token := Entry(Holder(email, password, actingAs), now + ttl, 0)];
    }

    method Get(token: string, now: Time) returns (holder: Option<Holder>)
      requires Valid()
      modifies Footprint()
      ensures store == null ==> (m, holder) == MemLookup(old(m), token, now)
      ensures store != null ==> m == old(m) && (store.rows, holder) == Manages().Lookup(old(store.rows), token, now)
      ensures store != null ==> OthersUnmoved(kind, store.rows, old(store.rows))
    {
      hide OthersUnmoved;
      if store != null {
        OperationsStay(Manages(), store.rows, token, now);
        RemovalsStay(store.rows, Manages().kind, "", "", Manages().KeyOf(token));
      }
      if token == "" {
        return None;
      }
      if store != null {
        var row := store.Get(token, kind, now);
        if row.None? {
          return None;
        }
        return Manages().HolderOf(row.value);
      }
      if token !in m {
        return None;
      }
      if now > m[token].expires {
        m := m - {token};
        return None;
      }
      return Some(m[token].holder);
    }

    method Peek(token: string, now: Time) returns (holder: Option<Holder>)
      requires Valid()
      modifies Footprint()
      ensures store == null ==> (m, holder) == MemVerify(old(m), token, now)
      ensures store != null ==> m == old(m) && (store.rows, holder) == Manages().Verify(old(store.rows), token, now)
      ensures store != null ==> OthersUnmoved(kind, store.rows, old(store.rows))
    {
      hide OthersUnmoved;
      if store != null {
        OperationsStay(Manages(), store.rows, token, now);
        RemovalsStay(store.rows, Manages().kind, "", "", Manages().KeyOf(token));
      }
      if token == "" {
        return None;
      }
      if store != null {
        holder := PeekStoreBacked(token, now);
        return;
      }
      if token !in m {
        return None;
      }
      if now > m[token].expires {
        m := m - {token};
        return None;
      }
      m := m[token := m[token].(attempts := m[token].attempts + 1)];
      if m[token].attempts > MAX_PENDING_ATTEMPTS {
        m := m - {token};
        assert m == old(m) - {token};
        return None;
      }
      return Some(m[token].holder);
    }

    method PeekStoreBacked(token: string, now: Time) returns (holder: Option<Holder>)
      requires Valid() && store != null && token != ""
      modifies store
      ensures (store.rows, holder) == Manages().Verify(old(store.rows), token, now)
    {
      var attempt := store.IncrementAttempts(token, kind, now);
      if attempt.None? {
        return None;
      }
      if attempt.value.attempts > MAX_PENDING_ATTEMPTS {
        store.Delete(token, kind);
        return None;
      }
      var row := store.Get(token, kind, now);
      if row.None? {
        return None;
      }
      return Manages().HolderOf(row.value);
    }

    method Delete(token: string)
      requires Valid()
      modifies Footprint()
      ensures store == null ==> m == old(m) - {token}
      ensures store != null ==> m == old(m) && store.rows == Without(old(store.rows), Manages().KeyOf(token))
      ensures store != null ==> OthersUnmoved(kind, store.rows, old(store.rows))
    {
      if store != null {
        store.Delete(token, kind);
        return;
      }
      m := m - {token};
    }

    method GC(now: Time)
      requires Valid()
      modifies Footprint()
      ensures store == null ==> m == MemSweep(old(m), now)
      ensures store != null ==> m == old(m) && store.rows == Swept(old(store.rows), now)
    {
      if store != null {
        store.GC(now);
        return;
      }
      m := SweepMap(m, now);
    }
  }

  /** domainadmin.Sessions: a domain list, which is no secret, as metadata. */
  class DomainSessions {
    const ttl: int
    const sha: string -> seq<Byte>
    const store: Store?
    var m: Memory

    constructor (ttl: int, sha: string -> seq<Byte>, store: Store?)
      requires store != null ==> store.sha == sha
      ensures this.ttl == ttl && this.sha == sha && this.store == store && m == map[]
    {
      this.ttl, this.sha, this.store := ttl, sha, store;
      m := map[];
    }

    ghost predicate Valid() {
      store != null ==> store.sha == sha
    }

    function Manages(): Manager { Plain(KIND_DOMAIN, sha) }

    ghost function Footprint(): set<object> {
      if store != null then {this, store} else {this}
    }

    method Create(token: string, username: string, domains: string, now: Time)
      requires Valid()
      modifies Footprint()
      ensures store == null ==> m == old(m)[token := Entry(Holder(username, "", domains), now + ttl, 0)]
      ensures store != null ==> m == old(m)
      ensures store != null ==>
                store.rows == old(store.rows)[
                  Manages().KeyOf(token) := Row(username, "", domains, 0, Unix(now), Unix(now + ttl))]
      ensures store != null ==> OthersUnmoved(KIND_DOMAIN, store.rows, old(store.rows))
      ensures store == null && token != "" ==> StandsFor(m, token, Holder(username, "", domains), now + ttl)
      ensures store != null && token != "" && Unix(now + ttl) != 0 ==>
                RowStandsFor(Manages(), store.rows, token, Holder(username, "", domains), now + ttl)
    {
      if store != null {
        store.Put(token, KIND_DOMAIN, username, "", domains, now, now + ttl);
        return;
      }
      m := m[token := Entry(Holder(username, "", domains), now + ttl, 0)];
    }

    method Get(token: string, now: Time) returns (holder: Option<Holder>)
      requires Valid()
      modifies Footprint()
      ensures store == null ==> (m, holder) == MemLookup(old(m), token, now)
      ensures store != null ==> m == old(m) && (store.rows, holder) == Manages().Lookup(old(store.rows), token, now)
      ensures store != null ==> OthersUnmoved(KIND_DOMAIN, store.rows, old(store.rows))
    {
      hide OthersUnmoved;
      if store != null {
        OperationsStay(Manages(), store.rows, token, now);
        RemovalsStay(store.rows, Manages().kind, "", "", Manages().KeyOf(token));
      }
      if token == "" {
        return None;
      }
      if store != null {
        var row := store.Get(token, KIND_DOMAIN, now);
        if row.None? {
          return None;
        }
        return Some(Holder(row.value.subject, row.value.secret, row.value.meta));
      }
      if token !in m {
        return None;
      }
      if now > m[token].expires {
        m := m - {token};
        return None;
      }
      return Some(m[token].holder);
    }

    method Delete(token: string)
      requires Valid()
      modifies Footprint()
      ensures store == null ==> m == old(m) - {token}
      ensures store != null ==> m == old(m) && store.rows == Without(old(store.rows), Manages().KeyOf(token))
      ensures store != null ==> OthersUnmoved(KIND_DOMAIN, store.rows, old(store.rows))
    {
      if store != null {
        store.Delete(token, KIND_DOMAIN);
        return;
      }
      m := m - {token};
    }

    method GC(now: Time)
      requires Valid()
      modifies Footprint()
      ensures store == null ==> m == MemSweep(old(m), now)
      ensures store != null ==> m == old(m) && store.rows == Swept(old(store.rows), now)
    {
      if store != null {
        store.GC(now);
        return;
      }
      m := SweepMap(m, now);
    }
  }
}
