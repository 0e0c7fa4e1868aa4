/** The shared token table of backend/internal/sessionstore/store.go, statement by statement.

    SHA-256 is a function `sha` from tokens to byte strings; results that need it to keep tokens apart say so. */
module SessionStore {
  import opened Options
  import opened Clock

  type Byte = b: nat | b < 256

  function HexDigit(n: nat): char
    requires n < 16
  {
    "0123456789abcdef"[n]
  }

  /** hex.EncodeToString. */
  function Hex(bytes: seq<Byte>): (s: string)
    ensures |s| == 2 * |bytes|
  {
    if bytes == [] then "" else [HexDigit(bytes[0] / 16), HexDigit(bytes[0] % 16)] + Hex(bytes[1..])
  }

  lemma HexDigitInjective(m: nat, n: nat)
    requires m < 16 && n < 16 && HexDigit(m) == HexDigit(n)
    ensures m == n
  {
    var digits := "0123456789abcdef";
    assert forall i, j :: 0 <= i < j < 16 ==> digits[i] != digits[j];
  }

  lemma {:induction false} HexInjective(a: seq<Byte>, b: seq<Byte>)
    requires Hex(a) == Hex(b)
    ensures a == b
  {
    assert |Hex(a)| == 2 * |a| && |Hex(b)| == 2 * |b|;
    if a != [] {
      assert Hex(a)[2..] == Hex(a[1..]) && Hex(b)[2..] == Hex(b[1..]);
      HexInjective(a[1..], b[1..]);
      assert Hex(a)[0] == HexDigit(a[0] / 16) && Hex(b)[0] == HexDigit(b[0] / 16);
      assert Hex(a)[1] == HexDigit(a[0] % 16) && Hex(b)[1] == HexDigit(b[0] % 16);
      HexDigitInjective(a[0] / 16, b[0] / 16);
      HexDigitInjective(a[0] % 16, b[0] % 16);
      assert a == [a[0]] + a[1..] && b == [b[0]] + b[1..];
    }
  }

  lemma {:induction false} HexPrefix(bytes: seq<Byte>, n: nat)
    requires n <= |bytes|
    ensures Hex(bytes[..n]) == Hex(bytes)[..2 * n]
  {
    if n > 0 {
      HexPrefix(bytes[1..], n - 1);
      assert bytes[..n][1..] == bytes[1..][..n - 1];
      assert Hex(bytes) == [HexDigit(bytes[0] / 16), HexDigit(bytes[0] % 16)] + Hex(bytes[1..]);
    }
  }

  /** Two characters a byte, the high half first. */
  lemma {:induction false} HexAt(bytes: seq<Byte>, k: nat)
    requires k < |bytes|
    ensures Hex(bytes)[2 * k] == "0123456789abcdef"[bytes[k] / 16]
    ensures Hex(bytes)[2 * k + 1] == "0123456789abcdef"[bytes[k] % 16]
  {
    if k > 0 {
      HexAt(bytes[1..], k - 1);
    }
  }

  const SESSION_ID_LEN: nat := 16

  /** The identifier a session is listed and revoked by: the first eight bytes of the digest. */
  function SessionID(sha: string -> seq<Byte>, token: string): string {
    var sum := sha(token);
    Hex(if |sum| >= 8 then sum[..8] else sum)
  }

  function HashToken(sha: string -> seq<Byte>, token: string): string {
    Hex(sha(token))
  }

  /** What the table calls a row's ID is what the in-memory managers compute from the raw token. */
  lemma SameSessionID(sha: string -> seq<Byte>, token: string)
    requires |sha(token)| >= 8
    ensures |HashToken(sha, token)| >= SESSION_ID_LEN
    ensures HashToken(sha, token)[..SESSION_ID_LEN] == SessionID(sha, token)
    ensures SessionID(sha, token) == HashToken(sha, token)[..16]
  {
    HexPrefix(sha(token), 8);
  }

  datatype Key = Key(hash: string, kind: string)

  datatype Row = Row(subject: string, secret: string, meta: string, attempts: nat, createdAt: int, expiresAt: int)

  type Table = map<Key, Row>

  datatype Listed = Listed(hash: string, row: Row)

  // ---------------------------------------------------------------------------------------------
  // What each operation does to the table
  // ---------------------------------------------------------------------------------------------

  predicate Expired(row: Row, now: Time) {
    now > FromUnix(row.expiresAt)
  }

  function Without(rows: Table, key: Key): Table {
    rows - {key}
  }

  function Find(rows: Table, key: Key, now: Time): (Table, Option<Row>) {
    if key !in rows then (rows, None)
    else if Expired(rows[key], now) then (Without(rows, key), None)
    else (rows, Some(rows[key]))
  }

  function Bumped(rows: Table, key: Key): Table {
    if key in rows then rows[key := rows[key].(attempts := rows[key].attempts + 1)] else rows
  }

  datatype Attempt = Attempt(attempts: nat, subject: string)

  function Increment(rows: Table, key: Key, now: Time): (Table, Option<Attempt>) {
    if key !in rows then (rows, None)
    else if Expired(rows[key], now) then (Without(rows, key), None)
    else (Bumped(rows, key), Some(Attempt(rows[key].attempts + 1, rows[key].subject)))
  }

  /** SQL's sweep, over rows of every kind. */
  function Swept(rows: Table, now: Time): Table {
    map key | key in rows && rows[key].expiresAt > Unix(now) :: rows[key]
  }

  predicate Matches(key: Key, row: Row, kind: string, subject: string) {
    key.kind == kind && row.subject == subject
  }

  function WithoutSubject(rows: Table, kind: string, subject: string, keep: string): Table {
    map key | key in rows && !(Matches(key, rows[key], kind, subject) && key.hash != keep) :: rows[key]
  }

  class Store {
    const sha: string -> seq<Byte>
    var rows: Table

    constructor (sha: string -> seq<Byte>)
      ensures this.sha == sha && rows == map[]
    {
      this.sha := sha;
      rows := map[];
    }

    function KeyOf(token: string, kind: string): Key {
      Key(HashToken(sha, token), kind)
    }

    method Put(token: string, kind: string, subject: string, secret: string, meta: string, now: Time, expiresAt: Time)
      modifies this
      ensures rows == old(rows)[KeyOf(token, kind) := Row(subject, secret, meta, 0, Unix(now), Unix(expiresAt))]
    {
      rows := rows[KeyOf(token, kind) := Row(subject, secret, meta, 0, Unix(now), Unix(expiresAt))];
    }

    method Get(token: string, kind: string, now: Time) returns (row: Option<Row>)
      modifies this
      ensures (rows, row) == Find(old(rows), KeyOf(token, kind), now)
    {
      var key := KeyOf(token, kind);
      if key !in rows {
        return None;
      }
      var found := rows[key];
      if now > FromUnix(found.expiresAt) {
        Delete(token, kind);
        return None;
      }
      return Some(found);
    }

    method IncrementAttempts(token: string, kind: string, now: Time) returns (attempt: Option<Attempt>)
      modifies this
      ensures (rows, attempt) == Increment(old(rows), KeyOf(token, kind), now)
    {
      var key := KeyOf(token, kind);
      if key !in rows {
        return None;
      }
      rows := rows[key := rows[key].(attempts := rows[key].attempts + 1)];
      var bumped := rows[key];
      if now > FromUnix(bumped.expiresAt) {
        Delete(token, kind);
        assert rows == Without(old(rows), key);
        return None;
      }
      return Some(Attempt(bumped.attempts, bumped.subject));
    }

    method Delete(token: string, kind: string)
      modifies this
      ensures rows == Without(old(rows), KeyOf(token, kind))
    {
      rows := rows - {KeyOf(token, kind)};
    }

    /** The rows of a subject that have not expired, each once, in no particular order. */
    method ListBySubject(kind: string, subject: string, now: Time) returns (out: seq<Listed>)
      ensures forall l :: l in out <==>
                Key(l.hash, kind) in rows && rows[Key(l.hash, kind)] == l.row
                && l.row.subject == subject && l.row.expiresAt > Unix(now)
      ensures forall j, k :: 0 <= j < k < |out| ==> out[j].hash != out[k].hash
    {
      out := [];
      var keys := rows.Keys;
      while keys != {}
        invariant keys <= rows.Keys
        invariant forall l :: l in out <==>
                    Key(l.hash, kind) in rows && Key(l.hash, kind) !in keys && rows[Key(l.hash, kind)] == l.row
                    && l.row.subject == subject && l.row.expiresAt > Unix(now)
        invariant forall j, k :: 0 <= j < k < |out| ==> out[j].hash != out[k].hash
        decreases |keys|
      {
        var key :| key in keys;
        if Matches(key, rows[key], kind, subject) && rows[key].expiresAt > Unix(now) {
          assert key == Key(key.hash, kind);
          assert forall k :: 0 <= k < |out| ==> out[k] in out && out[k].hash != key.hash;
          out := out + [Listed(key.hash, rows[key])];
        }
        keys := keys - {key};
      }
    }

    method DeleteByHash(hash: string, kind: string) returns (deleted: bool)
      modifies this
      ensures rows == Without(old(rows), Key(hash, kind))
      ensures deleted <==> Key(hash, kind) in old(rows)
    {
      deleted := Key(hash, kind) in rows;
      rows := rows - {Key(hash, kind)};
    }

    method DeleteBySubjectExcept(kind: string, subject: string, keepToken: string) returns (n: nat)
      modifies this
      ensures rows == WithoutSubject(old(rows), kind, subject, HashToken(sha, keepToken))
      ensures n == |old(rows)| - |rows|
    {
      var keep := HashToken(sha, keepToken);
      var kept := WithoutSubject(rows, kind, subject, keep);
      assert kept.Keys <= rows.Keys;
      n := |rows.Keys - kept.Keys|;
      assert rows.Keys == kept.Keys + (rows.Keys - kept.Keys);
      assert |rows.Keys| == |rows| && |kept.Keys| == |kept|;
      rows := kept;
    }

    method GC(now: Time)
      modifies this
      ensures rows == Swept(old(rows), now)
    {
      rows := map key | key in rows && rows[key].expiresAt > Unix(now) :: rows[key];
    }
  }
}
