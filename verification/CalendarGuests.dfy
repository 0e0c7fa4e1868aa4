/** Guest reconciliation in backend/internal/api/calendar.go.

    Lower-casing and case folding are parameters: they are different operations, and what the source promises depends
    on how they treat the owner's address. */
module CalendarGuests {
  import opened Strings

  const MAILTO: string := "mailto:"

  /** One ATTENDEE property: its value and its parameters (CN, ROLE, PARTSTAT). */
  datatype Prop = Prop(value: string, params: string)

  /** How Go treats letters and blanks: strings.TrimSpace, strings.ToLower and strings.EqualFold. */
  datatype Letters = Letters(trim: string -> string, lower: string -> string, fold: (string, string) -> bool)

  /** Lower-casing twice is lower-casing once, and makes nothing blank. */
  ghost predicate Lawful(c: Letters) {
    && (forall s :: c.lower(c.lower(s)) == c.lower(s))
    && (forall s :: c.lower(s) == "" <==> s == "")
  }

  function Address(p: Prop): string {
    TrimPrefix(p.value, MAILTO)
  }

  /** What editGuests takes for the owner's own entry: one whose address, once in lower case, folds to the owner. */
  predicate IsOwner(c: Letters, p: Prop, owner: string) {
    c.fold(c.lower(Address(p)), owner)
  }

  /** The guests asked for, in lower case, without blanks and without those that fold to the owner as written. */
  function Wanted(c: Letters, guests: seq<string>, owner: string): set<string> {
    set k | 0 <= k < |guests| && c.trim(guests[k]) != "" && !c.fold(c.trim(guests[k]), owner)
      :: c.lower(c.trim(guests[k]))
  }

  /** The wanted addresses that fold to the owner once they are in lower case. */
  function Mistaken(c: Letters, guests: seq<string>, owner: string): set<string> {
    set g | g in Wanted(c, guests, owner) && c.fold(g, owner)
  }

  /** The lower-case addresses of all attendees but the owner. */
  function Guests(c: Letters, attendees: seq<Prop>, owner: string): set<string> {
    set k | 0 <= k < |attendees| && !IsOwner(c, attendees[k], owner) :: c.lower(Address(attendees[k]))
  }

  predicate Keeps(c: Letters, p: Prop, want: set<string>, owner: string) {
    IsOwner(c, p, owner) || c.lower(Address(p)) in want
  }

  function Kept(c: Letters, attendees: seq<Prop>, want: set<string>, owner: string): seq<Prop> {
    if attendees == [] then []
    else
      var front, last := attendees[..|attendees| - 1], attendees[|attendees| - 1];
      Kept(c, front, want, owner) + if Keeps(c, last, want, owner) then [last] else []
  }

  /** New entries for exactly the guests in `missing`, one each, in any order. */
  ghost predicate Invites(added: seq<Prop>, missing: set<string>) {
    && (forall k :: 0 <= k < |added| ==> exists g :: g in missing && added[k] == Prop(MAILTO + g, ""))
    && (forall g :: g in missing ==> Prop(MAILTO + g, "") in added)
    && |added| == |missing|
  }

  /** The list before and after: kept entries first, then an invitation for each guest that is missing. */
  ghost predicate Reconciled(c: Letters, before: seq<Prop>, after: seq<Prop>, guests: seq<string>, owner: string) {
    var kept := Kept(c, before, Wanted(c, guests, owner), owner);
    && kept <= after
    && Invites(after[|kept|..], Wanted(c, guests, owner) - Guests(c, kept, owner))
  }

  /** The entries of a new event, as the guests were typed. */
  function Typed(c: Letters, guests: seq<string>, owner: string): seq<Prop> {
    if guests == [] then []
    else
      var front, g := guests[..|guests| - 1], c.trim(guests[|guests| - 1]);
      Typed(c, front, owner) + if g == "" || c.fold(g, owner) then [] else [Prop(MAILTO + g, "")]
  }

  function OwnEntry(owner: string, partstat: string): seq<Prop> {
    if owner == "" then [] else [Prop(MAILTO + owner, partstat)]
  }

  class Event {
    var attendees: seq<Prop>

    constructor (attendees: seq<Prop>)
      ensures this.attendees == attendees
    {
      this.attendees := attendees;
    }

    /** addGuests: the addresses as typed, trimmed only. */
    method AddGuests(c: Letters, guests: seq<string>, owner: string)
      modifies this
      ensures attendees == old(attendees) + Typed(c, guests, owner)
    {
      ghost var start := attendees;
      for k := 0 to |guests|
        invariant attendees == start + Typed(c, guests[..k], owner)
      {
        assert guests[..k + 1][..k] == guests[..k];
        var g := c.trim(guests[k]);
        if g != "" && !c.fold(g, owner) {
          attendees := attendees + [Prop(MAILTO + g, "")];
        }
      }
      assert guests[..|guests|] == guests;
    }

    method AddOwnerAttendee(owner: string, partstat: string)
      modifies this
      ensures attendees == old(attendees) + OwnEntry(owner, partstat)
      ensures owner != "" ==> attendees == old(attendees) + [Prop("mailto:" + owner, partstat)]
    {
      if owner == "" {
        return;
      }
      attendees := attendees + [Prop(MAILTO + owner, partstat)];
    }

    method EditGuests(c: Letters, guests: seq<string>, owner: string)
      modifies this
      ensures Reconciled(c, old(attendees), attendees, guests, owner)
    {
      hide Kept, Wanted, Guests, Invites, Missing;
      var want := WantedGuests(c, guests, owner);
      var kept, have := KeepWanted(c, attendees, want, owner);
      attendees := kept;

      var left := want;
      ghost var added: seq<Prop>, missing: set<string> := [], {};
      NoInvites();
      NoneMissing(want, have);
      while left != {}
        invariant left <= want && missing == Missing(want, left, have)
        invariant attendees == kept + added
        invariant Invites(added, missing)
        decreases |left|
      {
        var g :| g in left;
        OneLess(want, left, have, g);
        if g !in have {
          var invite := Prop(MAILTO + g, "");
          OneMoreInvite(added, missing, g);
          assert (kept + added) + [invite] == kept + (added + [invite]);
          attendees := attendees + [invite];
          added, missing := added + [invite], missing + {g};
        }
        left := left - {g};
      }
      assert attendees[|kept|..] == added;
    }
  }

  /** The wanted guests already looked at who have no entry. */
  ghost function Missing(want: set<string>, left: set<string>, have: set<string>): set<string> {
    (want - left) - have
  }

  lemma NoneMissing(want: set<string>, have: set<string>)
    ensures Missing(want, want, have) == {} && Missing(want, {}, have) == want - have
  {
  }

  lemma OneLess(want: set<string>, left: set<string>, have: set<string>, g: string)
    requires g in left && left <= want
    ensures Missing(want, left - {g}, have) == Missing(want, left, have) + if g in have then {} else {g}
    ensures g !in Missing(want, left, have)
  {
  }

  method WantedGuests(c: Letters, guests: seq<string>, owner: string) returns (want: set<string>)
    ensures want == Wanted(c, guests, owner)
  {
    want := {};
    for k := 0 to |guests|
      invariant want == Wanted(c, guests[..k], owner)
    {
      var g := c.trim(guests[k]);
      WantedStep(c, guests, k, owner);
      if g != "" && !c.fold(g, owner) {
        want := want + {c.lower(g)};
      }
    }
    assert guests[..|guests|] == guests;
  }

  method KeepWanted(c: Letters, attendees: seq<Prop>, want: set<string>, owner: string)
    returns (kept: seq<Prop>, have: set<string>)
    ensures kept == Kept(c, attendees, want, owner) && have == Guests(c, kept, owner)
  {
    have := {};
    kept := [];
    for k := 0 to |attendees|
      invariant kept == Kept(c, attendees[..k], want, owner)
      invariant have == Guests(c, kept, owner)
    {
      var p := attendees[k];
      var email := c.lower(Address(p));
      KeptStep(c, attendees, k, want, owner);
      GuestsStep(c, kept, p, owner);
      if c.fold(email, owner) {
        kept := kept + [p];
      } else if email in want {
        kept := kept + [p];
        have := have + {email};
      }
    }
    assert attendees[..|attendees|] == attendees;
  }

  lemma NoInvites()
    ensures Invites([], {})
  {
  }

  lemma OneMoreInvite(added: seq<Prop>, missing: set<string>, g: string)
    requires Invites(added, missing) && g !in missing
    ensures Invites(added + [Prop(MAILTO + g, "")], missing + {g})
  {
  }

  /** The addresses of the attendees that are neither blank nor the owner, in order and as often as they occur. */
  function GuestList(c: Letters, attendees: seq<Prop>, owner: string): seq<string> {
    if attendees == [] then []
    else
      var front, g := attendees[..|attendees| - 1], Address(attendees[|attendees| - 1]);
      GuestList(c, front, owner) + if g == "" || c.fold(g, owner) then [] else [g]
  }

  /** eventGuests, which folds the address as it stands. */
  method EventGuests(c: Letters, attendees: seq<Prop>, owner: string) returns (out: seq<string>)
    ensures out == GuestList(c, attendees, owner)
  {
    out := [];
    for k := 0 to |attendees|
      invariant out == GuestList(c, attendees[..k], owner)
    {
      var g := Address(attendees[k]);
      assert attendees[..k + 1][..k] == attendees[..k];
      if g == "" || c.fold(g, owner) {
        continue;
      }
      out := out + [g];
    }
    assert attendees[..|attendees|] == attendees;
  }

  function Lowered(c: Letters, out: seq<string>): set<string> {
    set j | 0 <= j < |out| :: c.lower(out[j])
  }

  lemma LoweredStep(c: Letters, out: seq<string>, g: string)
    ensures Lowered(c, out + [g]) == Lowered(c, out) + {c.lower(g)}
  {
    var more := out + [g];
    assert more[|out|] == g;
    forall x | x in Lowered(c, out) ensures x in Lowered(c, more) {
      var j :| 0 <= j < |out| && c.lower(out[j]) == x;
      assert more[j] == out[j];
    }
  }

  lemma WantedStep(c: Letters, guests: seq<string>, k: nat, owner: string)
    requires k < |guests|
    ensures var g := c.trim(guests[k]);
            Wanted(c, guests[..k + 1], owner)
            == Wanted(c, guests[..k], owner) + if g != "" && !c.fold(g, owner) then {c.lower(g)} else {}
  {
    var more, fewer := guests[..k + 1], guests[..k];
    assert more[k] == guests[k] && forall j :: 0 <= j < k ==> more[j] == fewer[j];
    forall x | x in Wanted(c, fewer, owner) ensures x in Wanted(c, more, owner) {
      var j :| 0 <= j < |fewer| && c.trim(fewer[j]) != "" && !c.fold(c.trim(fewer[j]), owner)
               && c.lower(c.trim(fewer[j])) == x;
      assert more[j] == fewer[j];
    }
  }

  lemma KeptStep(c: Letters, attendees: seq<Prop>, k: nat, want: set<string>, owner: string)
    requires k < |attendees|
    ensures Kept(c, attendees[..k + 1], want, owner)
         == Kept(c, attendees[..k], want, owner) + if Keeps(c, attendees[k], want, owner) then [attendees[k]] else []
  {
    assert attendees[..k + 1][..k] == attendees[..k];
  }

  lemma GuestsStep(c: Letters, attendees: seq<Prop>, p: Prop, owner: string)
    ensures Guests(c, attendees + [p], owner)
         == Guests(c, attendees, owner) + if IsOwner(c, p, owner) then {} else {c.lower(Address(p))}
  {
    var more := attendees + [p];
    assert more[|attendees|] == p;
    forall x | x in Guests(c, attendees, owner) ensures x in Guests(c, more, owner) {
      var j :| 0 <= j < |attendees| && !IsOwner(c, attendees[j], owner) && c.lower(Address(attendees[j])) == x;
      assert more[j] == attendees[j];
    }
  }

  // ---------------------------------------------------------------------------------------------
  // What reconciliation promises
  // ---------------------------------------------------------------------------------------------

  lemma KeptLast(c: Letters, attendees: seq<Prop>, want: set<string>, owner: string)
    requires attendees != []
    ensures var front, last := attendees[..|attendees| - 1], attendees[|attendees| - 1];
            Kept(c, attendees, want, owner)
            == if Keeps(c, last, want, owner) then Kept(c, front, want, owner) + [last] else Kept(c, front, want, owner)
  {
  }

  lemma MeetStep(s: set<string>, g: string, want: set<string>)
    ensures (s + {g}) * want == s * want + if g in want then {g} else {}
  {
  }

  lemma {:induction false} KeptGuests(c: Letters, attendees: seq<Prop>, want: set<string>, owner: string)
    ensures Guests(c, Kept(c, attendees, want, owner), owner) == Guests(c, attendees, owner) * want
  {
    if attendees == [] {
      NoGuests(c, owner);
    } else {
      hide Guests, IsOwner, Kept, Address;
      var front, last := attendees[..|attendees| - 1], attendees[|attendees| - 1];
      var g := c.lower(Address(last));
      KeptLast(c, attendees, want, owner);
      KeptGuests(c, front, want, owner);
      assert attendees == front + [last];
      GuestsStep(c, front, last, owner);
      GuestsStep(c, Kept(c, front, want, owner), last, owner);
      MeetStep(Guests(c, front, owner), g, want);
    }
  }

  lemma NoGuests(c: Letters, owner: string)
    ensures Guests(c, [], owner) == {}
  {
  }

  lemma {:induction false} GuestsConcat(c: Letters, a: seq<Prop>, b: seq<Prop>, owner: string)
    ensures Guests(c, a + b, owner) == Guests(c, a, owner) + Guests(c, b, owner)
  {
    hide Guests, IsOwner, Address;
    if b == [] {
      assert a + b == a;
      NoGuests(c, owner);
    } else {
      var front, last := b[..|b| - 1], b[|b| - 1];
      GuestsConcat(c, a, front, owner);
      GuestsStep(c, front, last, owner);
      GuestsStep(c, a + front, last, owner);
      assert b == front + [last] && a + b == (a + front) + [last];
    }
  }

  lemma WantedIsLower(c: Letters, guests: seq<string>, owner: string, g: string)
    requires Lawful(c) && g in Wanted(c, guests, owner)
    ensures c.lower(g) == g && g != ""
  {
    var k :| 0 <= k < |guests| && c.trim(guests[k]) != "" && c.lower(c.trim(guests[k])) == g;
  }

  lemma InviteIsGuest(c: Letters, g: string, guests: seq<string>, owner: string)
    requires Lawful(c) && g in Wanted(c, guests, owner)
    ensures Address(Prop(MAILTO + g, "")) == g == c.lower(g)
    ensures IsOwner(c, Prop(MAILTO + g, ""), owner) <==> g in Mistaken(c, guests, owner)
  {
    WantedIsLower(c, guests, owner, g);
    assert (MAILTO + g)[|MAILTO|..] == g;
  }

  /** The new entries are those of guests, except the mistaken ones. */
  lemma InvitedGuests(c: Letters, added: seq<Prop>, missing: set<string>, guests: seq<string>, owner: string)
    requires Lawful(c) && Invites(added, missing) && missing <= Wanted(c, guests, owner)
    ensures Guests(c, added, owner) == missing - Mistaken(c, guests, owner)
  {
    hide Wanted, Mistaken, IsOwner, Address, Lawful;
    forall k | 0 <= k < |added|
      ensures c.lower(Address(added[k])) in missing
      ensures IsOwner(c, added[k], owner) <==> c.lower(Address(added[k])) in Mistaken(c, guests, owner)
    {
      var g :| g in missing && added[k] == Prop(MAILTO + g, "");
      InviteIsGuest(c, g, guests, owner);
    }
    forall g | g in missing - Mistaken(c, guests, owner) ensures g in Guests(c, added, owner) {
      InviteIsGuest(c, g, guests, owner);
      var k :| 0 <= k < |added| && added[k] == Prop(MAILTO + g, "");
    }
  }

  lemma GuestsAreNotMistaken(c: Letters, attendees: seq<Prop>, guests: seq<string>, owner: string)
    ensures Guests(c, attendees, owner) * Mistaken(c, guests, owner) == {}
    ensures Mistaken(c, guests, owner) <= Wanted(c, guests, owner)
  {
  }

  /** The guests of the event are afterwards those asked for, without the mistaken ones. */
  lemma GuestsAfter(c: Letters, before: seq<Prop>, after: seq<Prop>, guests: seq<string>, owner: string)
    requires Lawful(c) && Reconciled(c, before, after, guests, owner)
    ensures Guests(c, after, owner) == Wanted(c, guests, owner) - Mistaken(c, guests, owner)
  {
    hide Guests, Wanted, Mistaken, Kept, Lawful, Invites;
    var want := Wanted(c, guests, owner);
    var kept := Kept(c, before, want, owner);
    var added := after[|kept|..];
    assert after == kept + added;
    var have := Guests(c, kept, owner);
    HaveIsWanted(c, before, guests, owner);
    InvitedGuests(c, added, want - have, guests, owner);
    GuestsConcat(c, kept, added, owner);
    Parted(want, have, Mistaken(c, guests, owner));
  }

  lemma HaveIsWanted(c: Letters, before: seq<Prop>, guests: seq<string>, owner: string)
    ensures var have := Guests(c, Kept(c, before, Wanted(c, guests, owner), owner), owner);
            have <= Wanted(c, guests, owner) && have * Mistaken(c, guests, owner) == {}
    ensures Mistaken(c, guests, owner) <= Wanted(c, guests, owner)
  {
    hide Guests, Wanted, Mistaken, Kept;
    KeptGuests(c, before, Wanted(c, guests, owner), owner);
    GuestsAreNotMistaken(c, Kept(c, before, Wanted(c, guests, owner), owner), guests, owner);
  }

  lemma Parted(want: set<string>, kept: set<string>, mistaken: set<string>)
    requires kept <= want && mistaken <= want && kept * mistaken == {}
    ensures kept + ((want - kept) - mistaken) == want - mistaken
  {
    assert forall g :: g in kept && g in mistaken ==> g in kept * mistaken;
  }

  /** They are exactly those asked for if and only if no wanted address, once in lower case, folds to the owner. */
  lemma GuestsAreThoseAskedFor(c: Letters, before: seq<Prop>, after: seq<Prop>, guests: seq<string>, owner: string)
    requires Lawful(c) && Reconciled(c, before, after, guests, owner)
    ensures Guests(c, after, owner) == Wanted(c, guests, owner) <==> Mistaken(c, guests, owner) == {}
  {
    GuestsAfter(c, before, after, guests, owner);
  }

  lemma {:induction false} KeptAll(c: Letters, attendees: seq<Prop>, want: set<string>, owner: string)
    requires Guests(c, attendees, owner) <= want
    ensures Kept(c, attendees, want, owner) == attendees
  {
    if attendees != [] {
      var front, last := attendees[..|attendees| - 1], attendees[|attendees| - 1];
      assert attendees == front + [last];
      GuestsStep(c, front, last, owner);
      KeptAll(c, front, want, owner);
    }
  }

  /** Doing it again with the same guests keeps the whole list as it is and adds one entry for each mistaken guest,
      every time. */
  lemma SecondRunAdds(c: Letters, before: seq<Prop>, after: seq<Prop>, again: seq<Prop>, guests: seq<string>,
                      owner: string)
    requires Lawful(c) && Reconciled(c, before, after, guests, owner) && Reconciled(c, after, again, guests, owner)
    ensures after <= again && Invites(again[|after|..], Mistaken(c, guests, owner))
  {
    hide Wanted, Mistaken, Kept, Guests, Invites, Lawful;
    GuestsAfter(c, before, after, guests, owner);
    KeptAll(c, after, Wanted(c, guests, owner), owner);
    GuestsAreNotMistaken(c, after, guests, owner);
    assert Wanted(c, guests, owner) - Guests(c, after, owner) == Mistaken(c, guests, owner);
  }

  /** It changes nothing, order and parameters included, if and only if no wanted address, once in lower case, folds to
      the owner. */
  lemma SecondRunChangesNothing(c: Letters, before: seq<Prop>, after: seq<Prop>, again: seq<Prop>,
                                guests: seq<string>, owner: string)
    requires Lawful(c) && Reconciled(c, before, after, guests, owner) && Reconciled(c, after, again, guests, owner)
    ensures again == after <==> Mistaken(c, guests, owner) == {}
  {
    hide Mistaken, Reconciled, Lawful;
    SecondRunAdds(c, before, after, again, guests, owner);
    assert again == after + again[|after|..];
  }

  function Owners(c: Letters, attendees: seq<Prop>, owner: string): seq<Prop> {
    if attendees == [] then []
    else
      var front, last := attendees[..|attendees| - 1], attendees[|attendees| - 1];
      Owners(c, front, owner) + if IsOwner(c, last, owner) then [last] else []
  }

  lemma OwnersStep(c: Letters, attendees: seq<Prop>, p: Prop, owner: string)
    ensures Owners(c, attendees + [p], owner) == Owners(c, attendees, owner) + if IsOwner(c, p, owner) then [p] else []
  {
    assert (attendees + [p])[..|attendees|] == attendees;
  }

  lemma {:induction false} OwnersKept(c: Letters, attendees: seq<Prop>, want: set<string>, owner: string)
    ensures Owners(c, Kept(c, attendees, want, owner), owner) == Owners(c, attendees, owner)
  {
    if attendees != [] {
      var front, last := attendees[..|attendees| - 1], attendees[|attendees| - 1];
      KeptLast(c, attendees, want, owner);
      OwnersKept(c, front, want, owner);
      OwnersStep(c, Kept(c, front, want, owner), last, owner);
    }
  }

  lemma {:induction false} OwnersConcat(c: Letters, a: seq<Prop>, b: seq<Prop>, owner: string)
    ensures Owners(c, a + b, owner) == Owners(c, a, owner) + Owners(c, b, owner)
  {
    if b == [] {
      assert a + b == a;
    } else {
      var front, last := b[..|b| - 1], b[|b| - 1];
      OwnersConcat(c, a, front, owner);
      assert a + b == (a + front) + [last];
      OwnersStep(c, a + front, last, owner);
    }
  }

  lemma {:induction false} NoOwnersIff(c: Letters, a: seq<Prop>, owner: string)
    ensures Owners(c, a, owner) == [] <==> forall k :: 0 <= k < |a| ==> !IsOwner(c, a[k], owner)
  {
    if a != [] {
      var front := a[..|a| - 1];
      NoOwnersIff(c, front, owner);
      assert forall k :: 0 <= k < |front| ==> front[k] == a[k];
    }
  }

  lemma MistakenIsMissing(c: Letters, kept: seq<Prop>, guests: seq<string>, owner: string)
    ensures Mistaken(c, guests, owner) <= Wanted(c, guests, owner) - Guests(c, kept, owner)
  {
  }

  lemma InvitedOwners(c: Letters, added: seq<Prop>, missing: set<string>, guests: seq<string>, owner: string)
    requires Lawful(c) && Invites(added, missing) && Mistaken(c, guests, owner) <= missing <= Wanted(c, guests, owner)
    ensures Owners(c, added, owner) == [] <==> Mistaken(c, guests, owner) == {}
  {
    hide Wanted, Mistaken, IsOwner, Lawful, Owners;
    NoOwnersIff(c, added, owner);
    forall k | 0 <= k < |added| && IsOwner(c, added[k], owner) ensures Mistaken(c, guests, owner) != {} {
      var g :| g in missing && added[k] == Prop(MAILTO + g, "");
      InviteIsGuest(c, g, guests, owner);
    }
    if g :| g in Mistaken(c, guests, owner) {
      InviteIsGuest(c, g, guests, owner);
      var k :| 0 <= k < |added| && added[k] == Prop(MAILTO + g, "");
    }
  }

  /** The owner's own entries, with their RSVPs, stay as they are and in order; others come to be taken for the owner's
      if and only if a wanted address, once in lower case, folds to the owner. */
  lemma OwnersUntouched(c: Letters, before: seq<Prop>, after: seq<Prop>, guests: seq<string>, owner: string)
    requires Lawful(c) && Reconciled(c, before, after, guests, owner)
    ensures Owners(c, before, owner) <= Owners(c, after, owner)
    ensures Owners(c, after, owner) == Owners(c, before, owner) <==> Mistaken(c, guests, owner) == {}
  {
    hide Wanted, Mistaken, Kept, Guests, IsOwner, Owners, Lawful, Invites;
    var want := Wanted(c, guests, owner);
    var kept := Kept(c, before, want, owner);
    var added := after[|kept|..];
    OwnersKept(c, before, want, owner);
    MistakenIsMissing(c, kept, guests, owner);
    InvitedOwners(c, added, want - Guests(c, kept, owner), guests, owner);
    OwnersConcat(c, kept, added, owner);
    assert after == kept + added;
  }

  // ---------------------------------------------------------------------------------------------
  // Reading the guests back
  // ---------------------------------------------------------------------------------------------

  /** The addresses eventGuests shows, in lower case. */
  function Shown(c: Letters, attendees: seq<Prop>, owner: string): set<string> {
    Lowered(c, GuestList(c, attendees, owner))
  }

  /** Those that fold to the owner once they are in lower case: editGuests takes their entries for the owner's. */
  function Astray(c: Letters, attendees: seq<Prop>, owner: string): set<string> {
    set g | g in Shown(c, attendees, owner) && c.fold(g, owner)
  }

  /** The guests of whose entries none is shown: all fold to the owner as written, and none in lower case. */
  function Hidden(c: Letters, attendees: seq<Prop>, owner: string): set<string> {
    Guests(c, attendees, owner) - Shown(c, attendees, owner)
  }

  /** eventGuests keeps the order: the list of two parts is the list of one, then of the other. */
  lemma {:induction false} ListInOrder(c: Letters, a: seq<Prop>, b: seq<Prop>, owner: string)
    ensures GuestList(c, a + b, owner) == GuestList(c, a, owner) + GuestList(c, b, owner)
  {
    if b == [] {
      assert a + b == a;
    } else {
      var front, last := b[..|b| - 1], b[|b| - 1];
      ListInOrder(c, a, front, owner);
      assert b == front + [last] && a + b == (a + front) + [last];
      ListStep(c, front, last, owner);
      ListStep(c, a + front, last, owner);
    }
  }

  lemma ListStep(c: Letters, front: seq<Prop>, last: Prop, owner: string)
    ensures var g := Address(last);
            GuestList(c, front + [last], owner)
            == if g == "" || c.fold(g, owner) then GuestList(c, front, owner) else GuestList(c, front, owner) + [g]
  {
    assert (front + [last])[..|front|] == front;
  }

  lemma ShownStep(c: Letters, front: seq<Prop>, last: Prop, owner: string)
    ensures var g := Address(last);
            Shown(c, front + [last], owner)
            == Shown(c, front, owner) + if g == "" || c.fold(g, owner) then {} else {c.lower(g)}
  {
    hide GuestList, Lowered;
    ListStep(c, front, last, owner);
    LoweredStep(c, GuestList(c, front, owner), Address(last));
  }

  lemma NoneShown(c: Letters, owner: string)
    ensures Shown(c, [], owner) == {}
  {
  }

  lemma {:induction false} ShownConcat(c: Letters, a: seq<Prop>, b: seq<Prop>, owner: string)
    ensures Shown(c, a + b, owner) == Shown(c, a, owner) + Shown(c, b, owner)
  {
    hide Shown, Address;
    if b == [] {
      assert a + b == a;
      NoneShown(c, owner);
    } else {
      var front, last := b[..|b| - 1], b[|b| - 1];
      ShownConcat(c, a, front, owner);
      ShownStep(c, front, last, owner);
      ShownStep(c, a + front, last, owner);
      assert b == front + [last] && a + b == (a + front) + [last];
    }
  }

  /** What is shown and kept: what editGuests takes for the owner's, and what is wanted. */
  function Retained(c: Letters, shown: set<string>, want: set<string>, owner: string): set<string> {
    set g | g in shown && (c.fold(g, owner) || g in want)
  }

  lemma RetainedStep(c: Letters, shown: set<string>, g: string, want: set<string>, owner: string)
    ensures Retained(c, shown + {g}, want, owner)
         == Retained(c, shown, want, owner) + if c.fold(g, owner) || g in want then {g} else {}
  {
  }

  lemma {:induction false} KeptShown(c: Letters, attendees: seq<Prop>, want: set<string>, owner: string)
    ensures Shown(c, Kept(c, attendees, want, owner), owner) == Retained(c, Shown(c, attendees, owner), want, owner)
  {
    if attendees == [] {
      NoneShown(c, owner);
    } else {
      hide Shown, Kept, Address, Retained;
      var front, last := attendees[..|attendees| - 1], attendees[|attendees| - 1];
      KeptLast(c, attendees, want, owner);
      KeptShown(c, front, want, owner);
      assert attendees == front + [last];
      ShownStep(c, front, last, owner);
      ShownStep(c, Kept(c, front, want, owner), last, owner);
      RetainedStep(c, Shown(c, front, owner), c.lower(Address(last)), want, owner);
    }
  }

  /** Of new entries all are shown but the mistaken ones. */
  lemma {:induction false} InvitedShown(c: Letters, added: seq<Prop>, guests: seq<string>, owner: string)
    requires Lawful(c)
    requires forall k :: 0 <= k < |added| ==>
               exists g :: g in Wanted(c, guests, owner) && added[k] == Prop(MAILTO + g, "")
    ensures Shown(c, added, owner) == Guests(c, added, owner)
  {
    if added == [] {
      NoneShown(c, owner);
      NoGuests(c, owner);
    } else {
      var front, last := added[..|added| - 1], added[|added| - 1];
      assert added == front + [last] && forall k :: 0 <= k < |front| ==> front[k] == added[k];
      InvitedShown(c, front, guests, owner);
      assert last == added[|added| - 1];
      var g :| g in Wanted(c, guests, owner) && last == Prop(MAILTO + g, "");
      InviteIsGuest(c, g, guests, owner);
      WantedIsLower(c, guests, owner, g);
      ShownStep(c, front, last, owner);
      GuestsStep(c, front, last, owner);
    }
  }

  /** What eventGuests shows after editGuests: the guests asked for, without the mistaken ones and without those that
      were hidden before; and everything astray before, which no edit removes. */
  lemma ShownAfter(c: Letters, before: seq<Prop>, after: seq<Prop>, guests: seq<string>, owner: string)
    requires Lawful(c) && Reconciled(c, before, after, guests, owner)
    ensures Shown(c, after, owner)
         == ((Wanted(c, guests, owner) - Mistaken(c, guests, owner)) - Hidden(c, before, owner))
            + Astray(c, before, owner)
  {
    hide Shown, Guests, Wanted, Kept, Lawful, Mistaken, Retained, Hidden, Astray;
    var want := Wanted(c, guests, owner);
    var kept := Kept(c, before, want, owner);
    var added := after[|kept|..];
    assert after == kept + added;
    KeptShown(c, before, want, owner);
    KeptGuests(c, before, want, owner);
    InvitedGuests(c, added, want - Guests(c, kept, owner), guests, owner);
    InvitedShown(c, added, guests, owner);
    ShownConcat(c, kept, added, owner);
    Regrouped(c, before, guests, owner);
  }

  lemma Regrouped(c: Letters, before: seq<Prop>, guests: seq<string>, owner: string)
    ensures var want, mistaken := Wanted(c, guests, owner), Mistaken(c, guests, owner);
            Retained(c, Shown(c, before, owner), want, owner) + ((want - Guests(c, before, owner) * want) - mistaken)
            == ((want - mistaken) - Hidden(c, before, owner)) + Astray(c, before, owner)
  {
    hide Shown, Guests, Wanted;
    var want, shown, mistaken := Wanted(c, guests, owner), Shown(c, before, owner), Mistaken(c, guests, owner);
    forall g
      ensures g in Retained(c, shown, want, owner) + ((want - Guests(c, before, owner) * want) - mistaken)
         <==> g in ((want - mistaken) - Hidden(c, before, owner)) + Astray(c, before, owner)
    {
    }
  }

  /** eventGuests reads back what editGuests was given if and only if what was astray before is exactly what is mistaken
      now, and no wanted guest was hidden before. */
  lemma EditThenRead(c: Letters, before: seq<Prop>, after: seq<Prop>, guests: seq<string>, owner: string)
    requires Lawful(c) && Reconciled(c, before, after, guests, owner)
    ensures Shown(c, after, owner) == Wanted(c, guests, owner)
       <==> Astray(c, before, owner) == Mistaken(c, guests, owner)
            && Hidden(c, before, owner) * Wanted(c, guests, owner) == {}
  {
    hide Lawful, Reconciled, Wanted, Shown, Guests;
    ShownAfter(c, before, after, guests, owner);
    HiddenDoNotFold(c, before, owner);
    WhenWhole(c, Wanted(c, guests, owner), Mistaken(c, guests, owner), Hidden(c, before, owner),
              Astray(c, before, owner), owner);
  }

  lemma HiddenDoNotFold(c: Letters, attendees: seq<Prop>, owner: string)
    ensures forall g :: g in Hidden(c, attendees, owner) ==> !c.fold(g, owner)
  {
  }

  lemma WhenWhole(c: Letters, want: set<string>, mistaken: set<string>, hidden: set<string>, astray: set<string>,
                  owner: string)
    requires forall g :: g in mistaken <==> g in want && c.fold(g, owner)
    requires forall g :: g in astray ==> c.fold(g, owner)
    requires forall g :: g in hidden ==> !c.fold(g, owner)
    ensures ((want - mistaken) - hidden) + astray == want <==> astray == mistaken && hidden * want == {}
  {
    var left := ((want - mistaken) - hidden) + astray;
    if left == want {
      forall g ensures g in astray <==> g in mistaken {
        assert g in left <==> g in want;
      }
      forall g ensures g !in hidden * want {
        assert g in left <==> g in want;
      }
    }
    if astray == mistaken && hidden * want == {} {
      forall g ensures g in left <==> g in want {
        assert g in hidden * want <==> g in hidden && g in want;
      }
    }
  }

  /** Where whatever folds to the owner still does so in lower case, no guest is hidden. */
  lemma {:induction false} NothingHidden(c: Letters, attendees: seq<Prop>, owner: string)
    requires Lawful(c) && forall s :: c.fold(s, owner) ==> c.fold(c.lower(s), owner)
    ensures Hidden(c, attendees, owner) <= {""}
  {
    if attendees == [] {
      NoGuests(c, owner);
    } else {
      hide Guests, Shown;
      var front, last := attendees[..|attendees| - 1], attendees[|attendees| - 1];
      assert attendees == front + [last];
      NothingHidden(c, front, owner);
      GuestsStep(c, front, last, owner);
      ShownStep(c, front, last, owner);
    }
  }

  // ---------------------------------------------------------------------------------------------
  // Creating, then editing
  // ---------------------------------------------------------------------------------------------

  lemma {:induction false} TypedShown(c: Letters, guests: seq<string>, owner: string)
    ensures Shown(c, Typed(c, guests, owner), owner) == Wanted(c, guests, owner)
  {
    if guests == [] {
      NoneShown(c, owner);
    } else {
      hide Shown, Wanted;
      var k := |guests| - 1;
      var front, g := guests[..k], c.trim(guests[k]);
      TypedShown(c, front, owner);
      WantedStep(c, guests, k, owner);
      assert guests[..k + 1] == guests;
      if g != "" && !c.fold(g, owner) {
        assert (MAILTO + g)[|MAILTO|..] == g;
        ShownStep(c, Typed(c, front, owner), Prop(MAILTO + g, ""), owner);
      } else {
        assert Typed(c, guests, owner) == Typed(c, front, owner);
      }
    }
  }

  /** A new event shows exactly the guests asked for, mistaken ones included. */
  lemma CreateThenRead(c: Letters, guests: seq<string>, owner: string, partstat: string)
    requires c.fold(owner, owner)
    ensures var created := Typed(c, guests, owner) + OwnEntry(owner, partstat);
            && Shown(c, created, owner) == Wanted(c, guests, owner)
            && Astray(c, created, owner) == Mistaken(c, guests, owner)
  {
    var typed := Typed(c, guests, owner);
    hide Typed, Shown, Wanted;
    TypedShown(c, guests, owner);
    if owner == "" {
      assert typed + OwnEntry(owner, partstat) == typed;
    } else {
      assert (MAILTO + owner)[|MAILTO|..] == owner;
      ShownStep(c, typed, Prop(MAILTO + owner, partstat), owner);
    }
  }

  /** An edit of a new event leaves the guests that were mistaken when it was created, whatever is asked for now. */
  lemma CreateThenEdit(c: Letters, first: seq<string>, owner: string, partstat: string, guests: seq<string>,
                       after: seq<Prop>)
    requires Lawful(c) && c.fold(owner, owner)
    requires Reconciled(c, Typed(c, first, owner) + OwnEntry(owner, partstat), after, guests, owner)
    ensures Mistaken(c, first, owner) <= Shown(c, after, owner)
    ensures Shown(c, after, owner) == Wanted(c, guests, owner)
       <==> Mistaken(c, first, owner) == Mistaken(c, guests, owner)
            && Hidden(c, Typed(c, first, owner) + OwnEntry(owner, partstat), owner) * Wanted(c, guests, owner) == {}
    ensures (forall s :: c.fold(s, owner) ==> c.fold(c.lower(s), owner)) ==>
              (Shown(c, after, owner) == Wanted(c, guests, owner)
               <==> Mistaken(c, first, owner) == Mistaken(c, guests, owner))
  {
    hide Lawful, Reconciled, Wanted, Shown, Typed, OwnEntry, Hidden;
    var created := Typed(c, first, owner) + OwnEntry(owner, partstat);
    CreateThenRead(c, first, owner, partstat);
    ShownAfter(c, created, after, guests, owner);
    EditThenRead(c, created, after, guests, owner);
    if forall s :: c.fold(s, owner) ==> c.fold(c.lower(s), owner) {
      NothingHidden(c, created, owner);
      NotBlank(c, guests, owner);
      assert forall g :: g in Hidden(c, created, owner) ==> g == "";
    }
  }

  lemma NotBlank(c: Letters, guests: seq<string>, owner: string)
    requires Lawful(c)
    ensures "" !in Wanted(c, guests, owner)
  {
  }

  // ---------------------------------------------------------------------------------------------
  // A mistaken guest
  // ---------------------------------------------------------------------------------------------

  /** Go's mapping of the ASCII letters and of the capital dotted I, whose lower case is "i" although it folds to
      nothing but itself. */
  function LowerChar(x: char): char {
    if x == '\U{0130}' then 'i' else AsciiLower(x)
  }

  function AsciiLower(x: char): char {
    if 'A' <= x <= 'Z' then ((x as int) + 32) as char else x
  }

  function MapChars(s: string, f: char -> char): (r: string)
    ensures |r| == |s| && forall k :: 0 <= k < |r| ==> r[k] == f(s[k])
  {
    seq(|s|, k requires 0 <= k < |s| => f(s[k]))
  }

  const TURKISH: Letters :=
    Letters(s => s, s => MapChars(s, LowerChar), (s, t) => MapChars(s, AsciiLower) == MapChars(t, AsciiLower))

  lemma TurkishIsLawful()
    ensures Lawful(TURKISH)
  {
    forall s ensures TURKISH.lower(TURKISH.lower(s)) == TURKISH.lower(s) {
      assert forall x: char :: LowerChar(LowerChar(x)) == LowerChar(x);
    }
  }

  lemma DottedIsMistaken()
    ensures Wanted(TURKISH, ["\U{0130}@x.org"], "i@x.org") == {"i@x.org"}
    ensures Mistaken(TURKISH, ["\U{0130}@x.org"], "i@x.org") == {"i@x.org"}
  {
    var guest, owner := "\U{0130}@x.org", "i@x.org";
    assert MapChars(guest, LowerChar) == owner;
    assert MapChars(guest, AsciiLower)[0] == '\U{0130}' && MapChars(owner, AsciiLower)[0] == 'i';
    assert [guest][0] == guest;
    assert Wanted(TURKISH, [guest], owner) == {owner};
  }

  lemma OwnerIsNotShown(p: Prop)
    requires p.value == "mailto:i@x.org"
    ensures Shown(TURKISH, [p], "i@x.org") == {}
  {
    assert Address(p) == p.value[7..] == "i@x.org";
    hide Shown, Address;
    OwnerFolds();
    NoneShown(TURKISH, "i@x.org");
    ShownStep(TURKISH, [], p, "i@x.org");
    assert [] + [p] == [p];
  }

  lemma OneInvite(added: seq<Prop>, g: string)
    requires Invites(added, {g})
    ensures added == [Prop(MAILTO + g, "")]
  {
  }

  /** One guest asked for, and mistaken: every edit adds an entry, and none is shown. */
  lemma OneMistaken(c: Letters, before: seq<Prop>, after: seq<Prop>, again: seq<Prop>, guests: seq<string>,
                    owner: string, g: string)
    requires Lawful(c) && Reconciled(c, before, after, guests, owner) && Reconciled(c, after, again, guests, owner)
    requires Wanted(c, guests, owner) == Mistaken(c, guests, owner) == {g} && Shown(c, before, owner) == {}
    ensures again == after + [Prop(MAILTO + g, "")]
    ensures GuestList(c, after, owner) == GuestList(c, again, owner) == []
  {
    hide Wanted, Mistaken, Guests, GuestList, Lowered, Reconciled, Lawful;
    SecondRunAdds(c, before, after, again, guests, owner);
    OneInvite(again[|after|..], g);
    assert again == after + again[|after|..];
    ShownAfter(c, before, after, guests, owner);
    ShownAfter(c, after, again, guests, owner);
    NothingLowered(c, GuestList(c, after, owner));
    NothingLowered(c, GuestList(c, again, owner));
  }

  /** The owner i@x.org invites the address with a capital dotted I, and gets an entry of their own address with every
      edit, which is never shown. */
  lemma DottedGuestIsAddedAgain(after: seq<Prop>, again: seq<Prop>)
    requires Reconciled(TURKISH, [Prop("mailto:i@x.org", "ACCEPTED")], after, ["\U{0130}@x.org"], "i@x.org")
    requires Reconciled(TURKISH, after, again, ["\U{0130}@x.org"], "i@x.org")
    ensures again == after + [Prop(MAILTO + "i@x.org", "")]
    ensures GuestList(TURKISH, after, "i@x.org") == GuestList(TURKISH, again, "i@x.org") == []
  {
    hide Wanted, Mistaken, Guests, GuestList, Lowered, Shown, Reconciled, Lawful;
    var before := [Prop("mailto:i@x.org", "ACCEPTED")];
    TurkishIsLawful();
    DottedIsMistaken();
    OwnerIsNotShown(before[0]);
    OneMistaken(TURKISH, before, after, again, ["\U{0130}@x.org"], "i@x.org", "i@x.org");
  }

  /** Invited when the event is created, the same guest is shown as typed, and no edit removes it: here one that asks
      for no guests. */
  lemma DottedGuestStays(after: seq<Prop>)
    requires Reconciled(TURKISH, Typed(TURKISH, ["\U{0130}@x.org"], "i@x.org") + OwnEntry("i@x.org", "ACCEPTED"),
                        after, [], "i@x.org")
    ensures Shown(TURKISH, after, "i@x.org") == {"i@x.org"} && Wanted(TURKISH, [], "i@x.org") == {}
    ensures Mistaken(TURKISH, [], "i@x.org") == {}
  {
    hide Mistaken, Shown, Reconciled, Lawful, Typed, OwnEntry;
    TurkishIsLawful();
    DottedIsMistaken();
    OwnerFolds();
    CreateThenEdit(TURKISH, ["\U{0130}@x.org"], "i@x.org", "ACCEPTED", [], after);
    CreateThenRead(TURKISH, ["\U{0130}@x.org"], "i@x.org", "ACCEPTED");
    var created := Typed(TURKISH, ["\U{0130}@x.org"], "i@x.org") + OwnEntry("i@x.org", "ACCEPTED");
    ShownAfter(TURKISH, created, after, [], "i@x.org");
    NoneWanted(TURKISH, "i@x.org");
  }

  lemma OwnerFolds()
    ensures TURKISH.fold("i@x.org", "i@x.org")
  {
  }

  lemma NoneWanted(c: Letters, owner: string)
    ensures Wanted(c, [], owner) == {} && Mistaken(c, [], owner) == {}
  {
  }

  lemma NothingLowered(c: Letters, out: seq<string>)
    ensures Lowered(c, out) == {} <==> out == []
  {
    assert out != [] ==> c.lower(out[0]) in Lowered(c, out);
  }
}
