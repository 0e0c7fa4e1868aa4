/** The shared-mailbox tables of backend/internal/sharedmailbox/store.go, and the message list they enrich
    (enrichShared in backend/internal/api/webmail_shared.go). */
module SharedMailbox {
  import opened Options
  import opened Clock

  datatype MsgKey = MsgKey(mailbox: nat, folder: string, uid: nat)

  datatype Note = Note(at: MsgKey, author: string, body: string, createdAt: int)

  datatype Member = Member(mailbox: nat, email: string)

  datatype Assignment = Assignment(to: string, assigner: string, at: int)

  datatype Tables = Tables(
    mailboxes: map<nat, string>,
    members: map<Member, int>,
    assignments: map<MsgKey, Assignment>,
    notes: map<nat, Note>)

  /** The four statements of DeleteMailbox, in order. */
  function DeleteStatement(t: Tables, id: nat, n: nat): Tables
    requires n < 4
  {
    if n == 0 then t.(members := map m | m in t.members && m.mailbox != id :: t.members[m])
    else if n == 1 then t.(assignments := map k | k in t.assignments && k.mailbox != id :: t.assignments[k])
    else if n == 2 then t.(notes := map k | k in t.notes && t.notes[k].at.mailbox != id :: t.notes[k])
    else t.(mailboxes := t.mailboxes - {id})
  }

  function DeleteStatements(t: Tables, id: nat, n: nat): Tables
    requires n <= 4
  {
    if n == 0 then t else DeleteStatement(DeleteStatements(t, id, n - 1), id, n - 1)
  }

  function NotesOf(t: Tables, key: MsgKey): set<nat> {
    set id | id in t.notes && t.notes[id].at == key
  }

  predicate Before(t: Tables, a: nat, b: nat)
    requires a in t.notes && b in t.notes
  {
    t.notes[a].createdAt < t.notes[b].createdAt || (t.notes[a].createdAt == t.notes[b].createdAt && a <= b)
  }

  function AssigneeOf(t: Tables, key: MsgKey): string {
    if key in t.assignments then t.assignments[key].to else ""
  }

  datatype Header = Header(uid: nat, subject: string, assignedTo: string, notesCount: nat)

  class Store {
    var t: Tables

    constructor ()
      ensures t == Tables(map[], map[], map[], map[])
    {
      t := Tables(map[], map[], map[], map[]);
    }

    /** Runs the statements in order and stops at the first that fails, if any. */
    method DeleteMailbox(id: nat, failing: nat) returns (ok: bool)
      modifies this
      ensures ok <==> failing >= 4
      ensures t == DeleteStatements(old(t), id, if failing < 4 then failing else 4)
    {
      for n := 0 to 4
        invariant t == DeleteStatements(old(t), id, n) && n <= failing
      {
        if n == failing {
          return false;
        }
        t := DeleteStatement(t, id, n);
      }
      return true;
    }

    method GetAssignment(key: MsgKey) returns (to: Option<string>)
      ensures to == if key in t.assignments then Some(t.assignments[key].to) else None
      ensures AssigneeOf(t, key) == if to.Some? then to.value else ""
    {
      if key in t.assignments {
        return Some(t.assignments[key].to);
      }
      return None;
    }

    method AssignmentsForFolder(mailbox: nat, folder: string) returns (out: map<nat, string>)
      ensures forall uid :: uid in out <==> MsgKey(mailbox, folder, uid) in t.assignments
      ensures forall uid :: uid in out ==> out[uid] == t.assignments[MsgKey(mailbox, folder, uid)].to
    {
      out := map[];
      var keys := t.assignments.Keys;
      while keys != {}
        invariant keys <= t.assignments.Keys
        invariant forall uid :: uid in out <==>
                    MsgKey(mailbox, folder, uid) in t.assignments && MsgKey(mailbox, folder, uid) !in keys
        invariant forall uid :: uid in out ==> out[uid] == t.assignments[MsgKey(mailbox, folder, uid)].to
        decreases |keys|
      {
        var key :| key in keys;
        if key.mailbox == mailbox && key.folder == folder {
          out := out[key.uid := t.assignments[key].to];
        }
        keys := keys - {key};
      }
    }

    /** Every note on a message, oldest first. */
    method ListNotes(key: MsgKey) returns (ids: seq<nat>)
      ensures forall id :: id in ids <==> id in NotesOf(t, key)
      ensures forall id :: id in ids <==> id in t.notes && t.notes[id].at == key
      ensures |ids| == |NotesOf(t, key)|
      ensures forall j, k :: 0 <= j < k < |ids| ==>
                && ids[j] in t.notes && ids[k] in t.notes
                && t.notes[ids[j]].createdAt <= t.notes[ids[k]].createdAt
                && (t.notes[ids[j]].createdAt == t.notes[ids[k]].createdAt ==> ids[j] <= ids[k])
    {
      ids := [];
      var left := NotesOf(t, key);
      while left != {}
        invariant left <= NotesOf(t, key)
        invariant forall id :: id in ids <==> id in NotesOf(t, key) && id !in left
        invariant |ids| + |left| == |NotesOf(t, key)|
        invariant forall j, k :: 0 <= j < k < |ids| ==>
                    ids[j] in t.notes && ids[k] in t.notes && Before(t, ids[j], ids[k])
        invariant forall id, next :: id in ids && next in left ==> Before(t, id, next)
        decreases |left|
      {
        var next := Oldest(left);
        ids := ids + [next];
        left := left - {next};
      }
    }

    method Oldest(left: set<nat>) returns (first: nat)
      requires left != {} && forall id :: id in left ==> id in t.notes
      ensures first in left && forall id :: id in left ==> Before(t, first, id)
    {
      ghost var least := OldestExists(t, left);
      first :| first in left && forall id :: id in left ==> Before(t, first, id);
    }

    method NoteCountsForFolder(mailbox: nat, folder: string) returns (out: map<nat, nat>)
      ensures forall uid :: uid in out <==> NotesOf(t, MsgKey(mailbox, folder, uid)) != {}
      ensures forall uid :: uid in out ==> out[uid] == |NotesOf(t, MsgKey(mailbox, folder, uid))|
    {
      hide Counted, NotesOf;
      out := map[];
      NothingCounted(t);
      var ids := t.notes.Keys;
      while ids != {}
        invariant ids <= t.notes.Keys
        invariant forall uid :: uid in out <==> Counted(t, MsgKey(mailbox, folder, uid), ids) != {}
        invariant forall uid :: uid in out ==> out[uid] == |Counted(t, MsgKey(mailbox, folder, uid), ids)|
        decreases |ids|
      {
        var id :| id in ids;
        var at := t.notes[id].at;
        forall uid {
          CountStep(t, MsgKey(mailbox, folder, uid), ids, id);
        }
        if at.mailbox == mailbox && at.folder == folder {
          assert at == MsgKey(mailbox, folder, at.uid);
          out := out[at.uid := if at.uid in out then out[at.uid] + 1 else 1];
        }
        ids := ids - {id};
      }
    }

    method AddMember(mailbox: nat, email: string, now: Time)
      modifies this
      ensures t == Written(old(t), mailbox, PutMember(email, Unix(now)))
      ensures t == old(t).(members := old(t).members[Member(mailbox, email) := Unix(now)])
    {
      t := t.(members := t.members[Member(mailbox, email) := Unix(now)]);
    }

    method SetAssignment(mailbox: nat, folder: string, uid: nat, to: string, assigner: string, now: Time)
      modifies this
      ensures t == Written(old(t), mailbox, PutAssignment(folder, uid, Assignment(to, assigner, Unix(now))))
      ensures var key := MsgKey(mailbox, folder, uid);
              t == old(t).(assignments := old(t).assignments[key := Assignment(to, assigner, Unix(now))])
    {
      t := t.(assignments := t.assignments[MsgKey(mailbox, folder, uid) := Assignment(to, assigner, Unix(now))]);
    }

    method AddNote(mailbox: nat, folder: string, uid: nat, author: string, body: string, now: Time) returns (id: nat)
      modifies this
      ensures id !in old(t).notes
      ensures t == Written(old(t), mailbox, PutNote(id, folder, uid, author, body, Unix(now)))
      ensures var note := Note(MsgKey(mailbox, folder, uid), author, body, Unix(now));
              t == old(t).(notes := old(t).notes[id := note])
    {
      ghost var free := FreeId(t.notes.Keys);
      id :| id !in t.notes;
      t := t.(notes := t.notes[id := Note(MsgKey(mailbox, folder, uid), author, body, Unix(now))]);
    }

    /** Two queries for a whole list give each message its own assignee and its own number of notes.  The list stays
        as it is when the session is of no shared mailbox or one of the queries fails. */
    method EnrichShared(session: Option<nat>, answered: bool, folder: string, msgs: array<Header>)
      modifies msgs
      ensures t == old(t)
      ensures session.None? || !answered ==> msgs[..] == old(msgs[..])
      ensures session.Some? && answered ==>
                forall i :: 0 <= i < msgs.Length ==>
                  var key := MsgKey(session.value, folder, old(msgs[i]).uid);
                  msgs[i] == old(msgs[i]).(assignedTo := AssigneeOf(t, key), notesCount := |NotesOf(t, key)|)
    {
      if session.None? || !answered {
        return;
      }
      var mailbox := session.value;
      var assignments := AssignmentsForFolder(mailbox, folder);
      var counts := NoteCountsForFolder(mailbox, folder);
      for i := 0 to msgs.Length
        invariant forall j :: 0 <= j < i ==>
                    var key := MsgKey(mailbox, folder, old(msgs[j]).uid);
                    msgs[j] == old(msgs[j]).(assignedTo := AssigneeOf(t, key), notesCount := |NotesOf(t, key)|)
        invariant forall j :: i <= j < msgs.Length ==> msgs[j] == old(msgs[j])
      {
        var uid := msgs[i].uid;
        msgs[i] := msgs[i].(assignedTo := if uid in assignments then assignments[uid] else "",
                            notesCount := if uid in counts then counts[uid] else 0);
      }
    }
  }

  lemma {:induction false} FreeId(used: set<nat>) returns (id: nat)
    ensures id !in used && forall other :: other in used ==> other < id
    decreases |used|
  {
    if used == {} {
      return 0;
    }
    var one :| one in used;
    var free := FreeId(used - {one});
    assert forall other :: other in used ==> other == one || other in used - {one};
    id := if one < free then free else one + 1;
  }

  /** The notes on a message among those already visited, `ids` being still to come. */
  ghost function Counted(t: Tables, key: MsgKey, ids: set<nat>): set<nat> {
    NotesOf(t, key) - ids
  }

  lemma NothingCounted(t: Tables)
    ensures forall key :: Counted(t, key, t.notes.Keys) == {}
    ensures forall key :: Counted(t, key, {}) == NotesOf(t, key)
  {
  }

  lemma CountStep(t: Tables, key: MsgKey, ids: set<nat>, id: nat)
    requires id in ids && id in t.notes
    ensures |Counted(t, key, ids - {id})| == |Counted(t, key, ids)| + if t.notes[id].at == key then 1 else 0
    ensures Counted(t, key, ids - {id}) != {} <==> Counted(t, key, ids) != {} || t.notes[id].at == key
  {
    assert Counted(t, key, ids - {id}) == Counted(t, key, ids) + if t.notes[id].at == key then {id} else {};
  }

  lemma {:induction false} OldestExists(t: Tables, left: set<nat>) returns (first: nat)
    requires left != {} && forall id :: id in left ==> id in t.notes
    ensures first in left && forall id :: id in left ==> Before(t, first, id)
    decreases |left|
  {
    first :| first in left;
    if left != {first} {
      var rest := left - {first};
      assert rest != {} by {
        var other :| other in left && other != first;
        assert other in rest;
      }
      var other := OldestExists(t, rest);
      var some := first;
      if !Before(t, first, other) {
        first := other;
      }
      forall id | id in left ensures Before(t, first, id) {
        assert id == some || id in rest;
      }
    }
  }

  // ---------------------------------------------------------------------------------------------
  // Handlers that interleave
  // ---------------------------------------------------------------------------------------------

  datatype Write = PutMember(email: string, addedAt: int)
                 | PutAssignment(folder: string, uid: nat, assignment: Assignment)
                 | PutNote(note: nat, inFolder: string, onUid: nat, author: string, body: string, createdAt: int)

  /** Which of the deleting statements clears a write's table. */
  function TableOf(w: Write): nat {
    match w
    case PutMember(_, _) => 0
    case PutAssignment(_, _, _) => 1
    case PutNote(_, _, _, _, _, _) => 2
  }

  /** `deleting` holds, for each DeleteMailbox under way, its mailbox and the statements it has run. */
  datatype Deletion = Deletion(id: nat, ran: nat)

  datatype State = State(t: Tables, resolved: map<nat, nat>, deleting: map<nat, Deletion>)

  datatype Step =
    | Create(id: nat, email: string)
    | Resolve(call: nat, mailbox: nat)        // a handler looks its mailbox up
    | Commit(call: nat, write: Write)         // and later writes to it
    | BeginDelete(call: nat, mailbox: nat)
    | Statement(call: nat)
    | Stop(call: nat)                         // an error or a crash: whatever the call had left to do is not done

  ghost predicate Enabled(s: State, e: Step) {
    match e
    case Create(id, email) => id !in s.t.mailboxes
    case Resolve(call, mailbox) => mailbox in s.t.mailboxes
    case Commit(call, w) => call in s.resolved && (w.PutNote? ==> w.note !in s.t.notes)
    case BeginDelete(call, mailbox) => mailbox in s.t.mailboxes && call !in s.deleting
    case Statement(call) => call in s.deleting && s.deleting[call].ran < 4
    case Stop(call) => true
  }

  function Written(t: Tables, id: nat, w: Write): Tables {
    match w
    case PutMember(email, at) => t.(members := t.members[Member(id, email) := at])
    case PutAssignment(folder, uid, a) => t.(assignments := t.assignments[MsgKey(id, folder, uid) := a])
    case PutNote(note, folder, uid, author, body, at) =>
      t.(notes := t.notes[note := Note(MsgKey(id, folder, uid), author, body, at)])
  }

  function Apply(s: State, e: Step): State {
    match e
    case Create(id, email) => s.(t := s.t.(mailboxes := s.t.mailboxes[id := email]))
    case Resolve(call, mailbox) => s.(resolved := s.resolved[call := mailbox])
    case Commit(call, w) => if call in s.resolved then s.(t := Written(s.t, s.resolved[call], w)) else s
    case BeginDelete(call, mailbox) => s.(deleting := s.deleting[call := Deletion(mailbox, 0)])
    case Statement(call) =>
      if call !in s.deleting || s.deleting[call].ran >= 4 then s
      else
        var d := s.deleting[call];
        s.(t := DeleteStatement(s.t, d.id, d.ran),
           deleting := if d.ran == 3 then s.deleting - {call} else s.deleting[call := Deletion(d.id, d.ran + 1)])
    case Stop(call) => s.(deleting := s.deleting - {call}, resolved := s.resolved - {call})
  }

  ghost predicate Legal(s: State, run: seq<Step>)
    decreases |run|
  {
    run != [] ==> Enabled(s, run[0]) && Legal(Apply(s, run[0]), run[1..])
  }

  function After(s: State, run: seq<Step>): State
    decreases |run|
  {
    if run == [] then s else After(Apply(s, run[0]), run[1..])
  }

  const START: State := State(Tables(map[], map[], map[], map[]), map[], map[])

  /** Every member, assignment and note names an existing mailbox. */
  ghost predicate NoOrphans(t: Tables) {
    && (forall m :: m in t.members ==> m.mailbox in t.mailboxes)
    && (forall k :: k in t.assignments ==> k.mailbox in t.mailboxes)
    && (forall n :: n in t.notes ==> t.notes[n].at.mailbox in t.mailboxes)
  }

  /** Table `n` holds a row of mailbox `id`. */
  ghost predicate Holds(t: Tables, n: nat, id: nat) {
    || (n == 0 && exists m :: m in t.members && m.mailbox == id)
    || (n == 1 && exists k :: k in t.assignments && k.mailbox == id)
    || (n == 2 && exists k :: k in t.notes && t.notes[k].at.mailbox == id)
  }

  /** No deletion under way has already passed a table that holds a row of its mailbox. */
  ghost predicate Safe(s: State) {
    && NoOrphans(s.t)
    && (forall call :: call in s.deleting ==> s.deleting[call].ran < 4)
    && forall call, n: nat :: call in s.deleting && n < s.deleting[call].ran ==> !Holds(s.t, n, s.deleting[call].id)
  }

  /** A condition on the state of the run: the mailbox is still there, and no deletion of it has passed the table
      being written.  The first half a handler could look up when it writes; how far a deletion has come is stored
      nowhere, so the second half speaks of the run only. */
  ghost predicate WriteOk(s: State, id: nat, w: Write) {
    && id in s.t.mailboxes
    && forall call :: call in s.deleting && s.deleting[call].id == id ==> s.deleting[call].ran <= TableOf(w)
  }

  lemma DeletedHolds(t: Tables, id: nat, n: nat, m: nat, x: nat)
    requires n < 4
    ensures Holds(DeleteStatement(t, id, n), m, x) ==> Holds(t, m, x)
    ensures n < 3 ==> !Holds(DeleteStatement(t, id, n), n, id)
  {
  }

  lemma WrittenHolds(t: Tables, id: nat, w: Write, m: nat, x: nat)
    requires w.PutNote? ==> w.note !in t.notes
    ensures Holds(Written(t, id, w), m, x) <==> Holds(t, m, x) || (m == TableOf(w) && x == id)
  {
    match w
    case PutMember(email, _) =>
      assert Member(id, email) in Written(t, id, w).members;
      if m == 0 && Holds(t, m, x) {
        var k :| k in t.members && k.mailbox == x;
        assert k in Written(t, id, w).members;
      }
    case PutAssignment(folder, uid, a) =>
      assert MsgKey(id, folder, uid) in Written(t, id, w).assignments;
      if m == 1 && Holds(t, m, x) {
        var k :| k in t.assignments && k.mailbox == x;
        assert k in Written(t, id, w).assignments;
      }
    case PutNote(note, folder, uid, author, body, _) =>
      assert note in Written(t, id, w).notes && Written(t, id, w).notes[note].at.mailbox == id;
      if m == 2 && Holds(t, m, x) {
        var k :| k in t.notes && t.notes[k].at.mailbox == x;
        assert k in Written(t, id, w).notes && Written(t, id, w).notes[k].at.mailbox == x;
      }
  }

  /** A write keeps the tables safe exactly when that condition holds. */
  lemma WriteKeepsSafeIffChecked(s: State, call: nat, w: Write)
    requires Safe(s) && Enabled(s, Commit(call, w))
    ensures Safe(Apply(s, Commit(call, w))) <==> WriteOk(s, s.resolved[call], w)
  {
    var id := s.resolved[call];
    var after := Apply(s, Commit(call, w));
    assert after.t == Written(s.t, id, w) && after.deleting == s.deleting;
    forall m: nat, x: nat
      ensures Holds(after.t, m, x) <==> Holds(s.t, m, x) || (m == TableOf(w) && x == id)
    {
      WrittenHolds(s.t, id, w, m, x);
    }
    OrphanFree(s.t);
    OrphanFree(after.t);
    assert Holds(after.t, TableOf(w), id);
  }

  lemma OrphanFree(t: Tables)
    ensures NoOrphans(t) <==> forall n, id :: Holds(t, n, id) ==> id in t.mailboxes
  {
    if forall n, id :: Holds(t, n, id) ==> id in t.mailboxes {
      forall m | m in t.members ensures m.mailbox in t.mailboxes {
        assert Holds(t, 0, m.mailbox);
      }
      forall k | k in t.assignments ensures k.mailbox in t.mailboxes {
        assert Holds(t, 1, k.mailbox);
      }
      forall k | k in t.notes ensures t.notes[k].at.mailbox in t.mailboxes {
        assert Holds(t, 2, t.notes[k].at.mailbox);
      }
    }
  }

  lemma OtherStepsKeepSafe(s: State, e: Step)
    requires Safe(s) && Enabled(s, e) && !e.Commit?
    ensures Safe(Apply(s, e))
  {
    var after := Apply(s, e);
    if e.Statement? {
      var d := s.deleting[e.call];
      assert after.t == DeleteStatement(s.t, d.id, d.ran);
      forall m: nat, x: nat
        ensures Holds(after.t, m, x) ==> Holds(s.t, m, x)
        ensures d.ran < 3 ==> !Holds(after.t, d.ran, d.id)
      {
        DeletedHolds(s.t, d.id, d.ran, m, x);
      }
      OrphanFree(s.t);
      OrphanFree(after.t);
      forall call, n: nat | call in after.deleting && n < after.deleting[call].ran
        ensures !Holds(after.t, n, after.deleting[call].id)
      {
        if call != e.call {
          assert !Holds(s.t, n, s.deleting[call].id);
        } else if n < d.ran {
          assert !Holds(s.t, n, d.id);
        }
      }
    } else {
      forall call, n: nat | call in after.deleting && n < after.deleting[call].ran
        ensures !Holds(after.t, n, after.deleting[call].id)
      {
        assert !Holds(s.t, n, s.deleting[call].id);
      }
    }
  }

  /** Every write of the run happens where the condition holds. */
  ghost predicate Checked(s: State, run: seq<Step>)
    decreases |run|
  {
    run != [] ==>
      && (run[0].Commit? && run[0].call in s.resolved ==> WriteOk(s, s.resolved[run[0].call], run[0].write))
      && Checked(Apply(s, run[0]), run[1..])
  }

  /** Under that condition no run ever holds an orphan: deletions may stop after any of their statements. */
  lemma {:induction false} CheckedRunsHaveNoOrphans(s: State, run: seq<Step>)
    requires Safe(s) && Legal(s, run) && Checked(s, run)
    ensures Safe(After(s, run)) && NoOrphans(After(s, run).t)
    decreases |run|
  {
    if run != [] {
      var e := run[0];
      if e.Commit? {
        WriteKeepsSafeIffChecked(s, e.call, e.write);
      } else {
        OtherStepsKeepSafe(s, e);
      }
      CheckedRunsHaveNoOrphans(Apply(s, e), run[1..]);
    }
  }

  // ---------------------------------------------------------------------------------------------
  // The handlers do not make that check
  // ---------------------------------------------------------------------------------------------

  /** The statements of one deletion from `ran` on. */
  function Rest(call: nat, ran: nat): seq<Step>
    requires ran < 4
    decreases 4 - ran
  {
    [Statement(call)] + if ran == 3 then [] else Rest(call, ran + 1)
  }

  lemma RunStep(s: State, e: Step, rest: seq<Step>)
    ensures After(s, [e] + rest) == After(Apply(s, e), rest)
    ensures Legal(s, [e] + rest) <==> Enabled(s, e) && Legal(Apply(s, e), rest)
  {
    assert ([e] + rest)[1..] == rest;
  }

  lemma {:induction false} FinishedDeletion(s: State, call: nat, n: nat, x: nat)
    requires call in s.deleting && s.deleting[call].ran < 4
    requires n < s.deleting[call].ran && Holds(s.t, n, x)
    ensures var d := s.deleting[call];
            && Legal(s, Rest(call, d.ran))
            && d.id !in After(s, Rest(call, d.ran)).t.mailboxes
            && Holds(After(s, Rest(call, d.ran)).t, n, x)
    decreases 4 - s.deleting[call].ran
  {
    var d := s.deleting[call];
    var next := Apply(s, Statement(call));
    var rest := if d.ran == 3 then [] else Rest(call, d.ran + 1);
    RunStep(s, Statement(call), rest);
    StatementKeepsEarlier(s.t, d.id, d.ran, n, x);
    if d.ran < 3 {
      FinishedDeletion(next, call, n, x);
    }
  }

  lemma StatementKeepsEarlier(t: Tables, id: nat, n: nat, m: nat, x: nat)
    requires n < 4 && m < n && Holds(t, m, x)
    ensures Holds(DeleteStatement(t, id, n), m, x)
  {
  }

  /** Without it an orphan follows: the write itself leaves one, or the deletion does by running on. */
  lemma UncheckedWriteOrphans(s: State, call: nat, w: Write) returns (rest: seq<Step>)
    requires Safe(s) && Enabled(s, Commit(call, w)) && !WriteOk(s, s.resolved[call], w)
    ensures Legal(s, [Commit(call, w)] + rest) && !NoOrphans(After(s, [Commit(call, w)] + rest).t)
  {
    var e := Commit(call, w);
    var id := s.resolved[call];
    var mid := Apply(s, e);
    WrittenHolds(s.t, id, w, TableOf(w), id);
    assert Holds(mid.t, TableOf(w), id);
    if id !in s.t.mailboxes {
      rest := [];
    } else {
      var c :| c in s.deleting && s.deleting[c].id == id && s.deleting[c].ran > TableOf(w);
      rest := Rest(c, s.deleting[c].ran);
      FinishedDeletion(mid, c, TableOf(w), id);
    }
    RunStep(s, e, rest);
    OrphanFree(After(mid, rest).t);
  }

  /** One such run, with the id used again: a note written by a handler that had looked the first mailbox up before
      it was deleted turns up in the second. */
  lemma NoteInheritedByReusedId() returns (run: seq<Step>)
    ensures Legal(START, run)
    ensures run == [Create(1, "old@example.org"), Resolve(7, 1), BeginDelete(8, 1)] + Rest(8, 0)
                 + [Commit(7, PutNote(1, "INBOX", 5, "ann", "text", 0)), Create(1, "new@example.org")]
    ensures After(START, run).t.mailboxes == map[1 := "new@example.org"]
    ensures NotesOf(After(START, run).t, MsgKey(1, "INBOX", 5)) == {1}
  {
    hide After, Legal, NotesOf;
    var w := PutNote(1, "INBOX", 5, "ann", "text", 0);
    var none := Tables(map[], map[], map[], map[]);
    var deleted := State(none, map[7 := 1], map[]);
    var tail := [Commit(7, w)] + [Create(1, "new@example.org")];
    LateNote(deleted, w);
    WholeDeletion(0, tail);
    run := [Create(1, "old@example.org"), Resolve(7, 1), BeginDelete(8, 1)] + Rest(8, 0)
           + [Commit(7, w), Create(1, "new@example.org")];
    var r2 := [BeginDelete(8, 1)] + (Rest(8, 0) + tail);
    var r1 := [Resolve(7, 1)] + r2;
    assert run == [Create(1, "old@example.org")] + r1;
    var t1 := none.(mailboxes := map[1 := "old@example.org"]);
    RunStep(START, Create(1, "old@example.org"), r1);
    RunStep(State(t1, map[], map[]), Resolve(7, 1), r2);
    RunStep(State(t1, map[7 := 1], map[]), BeginDelete(8, 1), Rest(8, 0) + tail);
  }

  /** One of the four statements, on a mailbox with nothing in it. */
  lemma StatementRuns(n: nat)
    requires n <= 3
    ensures var none := Tables(map[], map[], map[], map[]);
            var t1 := none.(mailboxes := map[1 := "old@example.org"]);
            Apply(State(t1, map[7 := 1], map[8 := Deletion(1, n)]), Statement(8))
            == if n == 3 then State(none, map[7 := 1], map[]) else State(t1, map[7 := 1], map[8 := Deletion(1, n + 1)])
  {
  }

  lemma {:induction false} WholeDeletion(n: nat, tail: seq<Step>)
    requires n <= 3
    ensures var none := Tables(map[], map[], map[], map[]);
            var s := State(none.(mailboxes := map[1 := "old@example.org"]), map[7 := 1], map[8 := Deletion(1, n)]);
            var deleted := State(none, map[7 := 1], map[]);
            && After(s, Rest(8, n) + tail) == After(deleted, tail)
            && (Legal(s, Rest(8, n) + tail) <==> Legal(deleted, tail))
    decreases 3 - n
  {
    hide After, Legal, Apply;
    var t1 := Tables(map[], map[], map[], map[]).(mailboxes := map[1 := "old@example.org"]);
    var rest := if n == 3 then [] else Rest(8, n + 1);
    assert Rest(8, n) == [Statement(8)] + rest;
    assert Rest(8, n) + tail == [Statement(8)] + (rest + tail);
    StatementRuns(n);
    RunStep(State(t1, map[7 := 1], map[8 := Deletion(1, n)]), Statement(8), rest + tail);
    if n < 3 {
      WholeDeletion(n + 1, tail);
    } else {
      assert rest + tail == tail;
    }
  }

  lemma LateNote(s: State, w: Write)
    requires s == State(Tables(map[], map[], map[], map[]), map[7 := 1], map[])
    requires w == PutNote(1, "INBOX", 5, "ann", "text", 0)
    ensures var run := [Commit(7, w)] + [Create(1, "new@example.org")];
            && Legal(s, run)
            && After(s, run).t.mailboxes == map[1 := "new@example.org"]
            && NotesOf(After(s, run).t, MsgKey(1, "INBOX", 5)) == {1}
  {
    RunStep(s, Commit(7, w), [Create(1, "new@example.org")]);
    RunStep(Apply(s, Commit(7, w)), Create(1, "new@example.org"), []);
    assert [Create(1, "new@example.org")] + [] == [Create(1, "new@example.org")];
  }
}
