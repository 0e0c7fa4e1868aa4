# Mailfold: verified models of its algorithms and protocols

Mailfold is a panel and webmail in front of mailcow. Most of it passes requests on; a few parts carry real
algorithms and protocols. This project models those parts in Dafny and proves what they promise.

| file | models |
|---|---|
| `Bootstring.dfy` | the Punycode decoder of `frontend/src/lib/idn.js`, its two loops as methods |
| `BootstringEncoder.dfy` | the encoder of section 6.3 of RFC 3492, which the repository does not contain |
| `BootstringRoundTrip.dfy` | decoder and encoder undo each other, in both directions |
| `BootstringVectors.dfy` | fixed labels that pin the parameters of RFC 3492, which encoder and decoder share |
| `BootstringBounds.dfy` | why the decoder's numbers are exact in JavaScript on the labels it accepts |
| `BootstringDoubles.dfy` | the decoder on JavaScript's numbers, Infinity and NaN included, and in step with the integers |
| `BootstringTermination.dfy` | where the decoder returns and where it never does |
| `Idn.dfy` | labels, domains and addresses as UTF-16 strings |
| `ScheduledSend.dfy`, `Dispatcher.dfy` | the send-later queue, statement by statement, and its dispatcher |
| `SendProtocol.dfy` | runs of the queue: requests, ticks, SMTP, lost marks, crashes and restarts interleaved |
| `Resubmission.dfy` | the same runs from below: how often a message can be sent, and when once more |
| `SessionStore.dfy`, `Sessions.dfy` | the shared token table and the three session managers |
| `SessionRefinement.dfy` | the table-backed managers refine the in-memory ones, over whole histories |
| `AttemptBudget.dfy` | the attempt limit when the statements of many instances interleave |
| `RateLimit.dfy` | the fixed-window limiter |
| `SieveRules.dfy` | printing of Sieve rules, against a lexer for RFC 5228 |
| `SharedMailbox.dfy` | shared-mailbox tables, their cascade of deletes, and concurrent handlers |
| `CalendarGuests.dfy` | reconciliation of an event's guests |
| `DavPaths.dfy` | CalDAV and CardDAV paths |
| `Options.dfy`, `Strings.dfy`, `Clock.dfy` | shared vocabulary |

## What the proofs found

Where a promise is false of the code, the code is modelled as it is, a lemma gives a concrete input, and another says
exactly when the promise holds.

* `decodeLabel` is documented to return null on any malformed input. It never returns on some: if the first integer of
  a label overflows to Infinity, the loop of `adapt` goes on for ever. A label of 342 zeros and a "b" does it
  (`BootstringTermination.LongLabelsMayHang`). It returns if and only if that integer does not overflow or a basic
  character is not ASCII (`BootstringTermination.NoAnswerIff`), so always for a label of at most 250 characters
  (`BootstringTermination.ShortLabelsAreAnswered`). When it returns, on up to 1,927 characters, JavaScript's answer is
  that of exact integers, for rejected labels too (`BootstringDoubles.AnswersAlike`).
* `decodeIdnDomain` is documented to decode every "xn--" label. Its first test is case-sensitive and its test on
  labels is not, so a domain whose only prefix is "XN--" is shown undecoded (`Idn.UpperCasePrefixIsMissed`). Every
  label is decoded if and only if the domain mentions "xn--" or has no label to decode
  (`Idn.WhenEveryLabelIsDecoded`).
* The decoder never gives two labels the same code points, digit case apart, but the string shown can be the same
  (`Idn.DifferentLabelsSameDisplay`). No other label displays like an accepted one if and only if all its code points
  are below 0x10000 and no two of them merge into a surrogate pair (`Idn.SameDisplay`).
* Reconciling an event's guests is documented to bring them to those asked for. A guest is compared with the owner as
  written, stored in lower case by an edit, and the lower-cased address is compared with the owner again; reading
  compares addresses as written. The owner i@x.org and the same address with a capital dotted I (U+0130) come apart:
  invited by an edit, that guest becomes one more entry of the owner's own address with every edit, never shown
  (`CalendarGuests.DottedGuestIsAddedAgain`); invited when the event is created, it is shown and no edit removes it
  (`CalendarGuests.DottedGuestStays`).
  - A second edit changes nothing, and by the edit's own notion of the owner the guests are those asked for, each if and
    only if no wanted address folds to the owner once it is in lower case (`CalendarGuests.SecondRunChangesNothing`,
    `CalendarGuests.GuestsAreThoseAskedFor`).
  - The guests shown after an edit are those asked for if and only if the addresses shown before that fold to the owner
    in lower case are exactly the wanted ones that do, and no wanted guest was there and not shown
    (`CalendarGuests.EditThenRead`).
* "No shared-mailbox row outlives its mailbox" fails. The handlers look the mailbox up and write later, without
  looking again, so a note can be written after the deletion and turns up in the next mailbox that gets the same id
  (`SharedMailbox.NoteInheritedByReusedId`). A write keeps the tables safe if and only if its mailbox is still there
  and no deletion of it has passed that table (`SharedMailbox.WriteKeepsSafeIffChecked`); otherwise an orphan can
  follow.
* "A message is sent once" fails when a mark is lost and a start resets the row: for every n there is a run with n
  resets and n + 1 submissions of one row (`Resubmission.ResubmittedAfterEveryReset`), and never more
  (`SendProtocol.SubmittedAtMostOncePerReset`). From a reachable state one more submission can follow if and only if
  the row is pending, or `sending` with a claim a sweep can find or a place in the queue not yet submitted, or the id
  is still free (`Resubmission.WhenOneMoreCanFollow`).
* A message is due up to a second early (`ScheduledSend.CanBeEarly`), and never early if and only if its instant is a
  whole second (`ScheduledSend.NeverEarlyIffWholeSecond`).
* Sessions end earlier in the table than in memory (`SessionRefinement.EarlyRejection`): look-ups and attempts differ
  exactly after the second of the expiry and up to the expiry, or in the first instant of that second if a sweep in it
  took the row, or a revocation by ID in it did not (`SessionRefinement.WhenTheyDiffer`). In that instant a session is
  no longer listed but still valid, so revoking it by its ID does not reach the row
  (`SessionRefinement.RevokedButFoundOnTheSecond`); at every other instant it does
  (`SessionRefinement.RevocationByIdIsFinal`).

Some hypotheses have their reason in a lemma rather than in anything the program does: a clock that ran backwards would
make sweeps of the limiter visible (`RateLimit.BackwardsClockShowsGc`), an expiry in the first second of 1970 would be
stored as none (`SessionRefinement.FirstSecondOf1970IsLost`), and DAV paths of a user that began with a slash would be
misread (`DavPaths.ObjectRoundTrip`).

## What is assumed

* JavaScript's numbers obey the laws of IEEE 754 binary64 written out in `BootstringDoubles.Ieee`, which can be met
  (`BootstringTermination.LawsCanBeMet`).
* SHA-256 is a function that tells the tokens of a history apart, by its first eight bytes where sessions are revoked
  by ID; random tokens are fresh; what AES-GCM sealed opens to
  the same secret; JSON metadata of a rule has no line feed and unmarshals to what was marshalled. Each is a parameter
  or a hypothesis of the lemmas that use it.
* `Idn.dfy` speaks of the integers; for labels of at most 250 characters that is what JavaScript answers.
* One SQL statement is one atomic step, and `ClaimDue` is one step, being a transaction on a single connection. There is
  one dispatcher process.
* Trimming, lower-casing and case folding of guests' addresses are arbitrary functions, except that lower-casing twice
  is lower-casing once and makes nothing blank.
* Clocks and SMTP are parameters. Where a theorem needs a clock that does not go back, it says so.

## Model

| member | source | states |
|---|---|---|
| BootstringRoundTrip.DecodeEncode | frontend/src/lib/idn.js:50-91 | for every sequence of code points, decoding its RFC 3492 encoding gives back exactly that sequence |
| BootstringRoundTrip.EncodeDecode | frontend/src/lib/idn.js:39-91 | every label the decoder accepts is, with its digits in lower case, what the encoder writes for the result: the decoder is injective up to digit case |
| BootstringRoundTrip.DigitCaseIgnored | frontend/src/lib/idn.js:39-44 | lower-casing the digits of a label changes nothing, accepted or not |
| BootstringRoundTrip.ReadWritten | frontend/src/lib/idn.js:67-77 | a variable-length integer is read back as written, and reading stops where writing did |
| BootstringRoundTrip.WriteRead | frontend/src/lib/idn.js:67-77 | rewriting the integer read gives the same lower-case digits |
| BootstringRoundTrip.InsertEmitted | frontend/src/lib/idn.js:78-84 | an insertion keeps decoder and encoder in lockstep, first-time flag and bias included |
| BootstringRoundTrip.DecodeScan | frontend/src/lib/idn.js:66-85 | from any lockstep state the decoder turns what the encoder still writes into the whole sequence |
| BootstringRoundTrip.Undo | frontend/src/lib/idn.js:78-84 | one insertion undone: the encoder standing where the decoder stood writes exactly its delta |
| BootstringRoundTrip.EncodeDecoded | frontend/src/lib/idn.js:66-85 | encoding the final string from any decoder state writes the digits that were left to read |
| BootstringRoundTrip.OutputStays | frontend/src/lib/idn.js:83 | nothing inserted is ever lost |
| BootstringRoundTrip.BasicKept | frontend/src/lib/idn.js:78-84 | insertions leave the code points below 128 as they are, in order |
| BootstringRoundTrip.LabelInsertions | frontend/src/lib/idn.js:64-85 | over a whole label, the result is the basic part and code points of at least 128, inserted in non-decreasing order |
| BootstringRoundTrip.Accepted | frontend/src/lib/idn.js:56-64 | an accepted label is its basic part, the delimiter if there is one, and the digits |
| Bootstring.Decode | frontend/src/lib/idn.js:50-91 | on mathematical integers, the imperative decoder computes the decoding that the round trips speak of, its null results included |
| Bootstring.DecodeDigits | frontend/src/lib/idn.js:64-85 | the outer loop with its splice inserts one code point after another; the check of line 82 is proved dead |
| Bootstring.ReadDigits | frontend/src/lib/idn.js:68-77 | the inner loop with running weights reads the integer of Horner's rule, and fails exactly on malformed digits |
| Bootstring.AdaptLoop | frontend/src/lib/idn.js:26-35 | on mathematical integers, the adaptation loop computes the recursive bias |
| Bootstring.AdaptRemainder | frontend/src/lib/idn.js:29-34 | the last quotient is at most 33: a bias is a multiple of 36 plus 0..33 |
| Bootstring.Threshold | frontend/src/lib/idn.js:74 | every threshold is in 1..26 |
| BootstringVectors.DocumentedDomain | frontend/src/lib/idn.js:1-3 | "xn--d1amkbbgbl.xn--p1ai" is shown as the opening comment says |
| BootstringVectors.Rodoskop | frontend/src/lib/idn.js:15-91 | "d1amkbbgbl" decodes to its eight Cyrillic letters |
| BootstringVectors.Rf | frontend/src/lib/idn.js:15-91 | "p1ai" decodes to its two Cyrillic letters |
| BootstringVectors.Muenchen | frontend/src/lib/idn.js:15-91 | "mnchen-3ya" decodes to seven letters with one u umlaut, which pins the initial bias |
| BootstringVectors.China | frontend/src/lib/idn.js:15-91 | "fiqs8s" decodes to its two characters, which tells the damping factor 700 from 70 |
| BootstringVectors.ThreeHan | frontend/src/lib/idn.js:15-91 | a label that pins the skew 38 and the halving of later deltas |
| BootstringVectors.TwoPlanes | frontend/src/lib/idn.js:15-91 | a label that no damping factor of 699 decodes alike |
| BootstringVectors.HighPlanes | frontend/src/lib/idn.js:15-91 | a label that no damping factor of 701 and no limit of 456 decodes alike |
| BootstringVectors.Falling | frontend/src/lib/idn.js:15-91 | a label that pins the divisor 35 of the loop |
| BootstringVectors.AtTheLimit | frontend/src/lib/idn.js:15-91 | a label that no limit of 454 decodes alike |
| BootstringBounds.ArithmeticIsExact | frontend/src/lib/idn.js:26-85 | decoding an accepted label of up to 1,927 characters keeps i and every delta below 2^31 and weights below 2^53, and each `>> 1` halves |
| BootstringBounds.OutOfRangeIsRejected | frontend/src/lib/idn.js:78-90 | in integers, an index of 2^31 or more means a code point above 0x10FFFF, which fromCodePoint rejects |
| BootstringBounds.IndexBound | frontend/src/lib/idn.js:78-84 | an insertion of a valid code point among at most 1,927 keeps i below 2^31 |
| BootstringBounds.ToInt32Congruent | frontend/src/lib/idn.js:27 | `>>` works on the 32-bit number congruent to its operand |
| BootstringBounds.OnePointPerCharacter | frontend/src/lib/idn.js:66-85 | a label decodes to no more code points than it has characters |
| BootstringDoubles.AnswersAlike | frontend/src/lib/idn.js:26-91 | on JavaScript's numbers and any label of up to 1,927 characters, decodeLabel answers exactly what the integers answer, null included, if it returns |
| BootstringDoubles.ReadAlike | frontend/src/lib/idn.js:68-77 | the inner loop in doubles reads the exact integer below 2^31, and otherwise at least 2^31, Infinity or NaN, from the same characters |
| BootstringDoubles.BigIsDoomed | frontend/src/lib/idn.js:78-90 | from such an index on, NaN and Infinity included, what is inserted is no code point |
| BootstringDoubles.LoopEndsIff | frontend/src/lib/idn.js:30-33 | the loop of adapt ends if and only if d is not Infinity |
| BootstringTermination.FirstCallEndsIff | frontend/src/lib/idn.js:26-35 | the first call of adapt in a label goes on for ever if and only if delta is Infinity |
| BootstringTermination.LaterCallsEnd | frontend/src/lib/idn.js:27-34 | every later call ends, whatever delta has become |
| BootstringTermination.NoAnswerIff | frontend/src/lib/idn.js:50-91 | decodeLabel never returns if and only if the basic part is ASCII and the first integer overflows to Infinity |
| BootstringTermination.ShortLabelsAreAnswered | frontend/src/lib/idn.js:46-91 | every label of at most 250 characters is answered, and as the integers say |
| BootstringTermination.LongLabelsMayHang | frontend/src/lib/idn.js:46-91 | 342 or more zeros and a "b": decodeLabel never returns |
| Idn.DecodeLabelEncode | frontend/src/lib/idn.js:86-91 | the round trip on strings: the UTF-16 text of the encoded points |
| Idn.ShownExactly | frontend/src/lib/idn.js:87 | the text shows the decoded points if and only if no high surrogate stands before a low one |
| Idn.SameDisplay | frontend/src/lib/idn.js:50-91 | no other label displays like an accepted one, digit case apart, if and only if its code points are all below 0x10000 and no two merge into a surrogate pair |
| Idn.DifferentLabelsSameDisplay | frontend/src/lib/idn.js:87 | two different labels that do display alike |
| Idn.BasicPartKept | frontend/src/lib/idn.js:56-64 | the result's code points below 128 are, in order, exactly the part before the last hyphen |
| Idn.NoNewAscii | frontend/src/lib/idn.js:93-97 | decoding a label adds no ASCII character it did not have |
| Idn.LabelsKept | frontend/src/lib/idn.js:101-104 | a decoded domain splits into the decoded labels, as many as before |
| Idn.AddressKept | frontend/src/lib/idn.js:109-114 | an address keeps everything through its last at-sign, gains no other, and only its domain is decoded |
| Idn.DomainRoundTrip | frontend/src/lib/idn.js:101-104 | a domain encoded label by label decodes to the labels it was made from |
| Idn.WhenEveryLabelIsDecoded | frontend/src/lib/idn.js:99-104 | every label is decoded if and only if the domain mentions lower-case "xn--" or no label has the prefix, in either case, and a rest the decoder accepts |
| Idn.DecodedDiffers | frontend/src/lib/idn.js:93-97 | a label that is decoded always changes |
| Idn.AcceptedIsAscii | frontend/src/lib/idn.js:58-72 | the decoder accepts ASCII labels only |
| Idn.UpperCasePrefixIsMissed | frontend/src/lib/idn.js:94-102 | "XN--a-" stays as it is although its label decodes to "a" |
| Idn.PrefixInAnyCase | frontend/src/lib/idn.js:94 | a label has the prefix if its first four characters, in lower case, are "xn--" |
| Idn.MentionedAnywhere | frontend/src/lib/idn.js:102 | a domain mentions "xn--" wherever it stands |
| Idn.WhereMentioned | frontend/src/lib/idn.js:102 | a domain that mentions it has it somewhere |
| Idn.NothingShown | frontend/src/lib/idn.js:101-110 | a missing or empty domain or address is shown as nothing |
| ScheduledSend.Store.Create | backend/internal/scheduledsend/store.go:157-180 | adds one pending row under a new id, with the instant in whole seconds |
| ScheduledSend.Store.Cancel | backend/internal/scheduledsend/store.go:208-219 | cancels the row, and answers true, exactly when it is the owner's and pending |
| ScheduledSend.Store.SelectDueIDs | backend/internal/scheduledsend/store.go:276-294 | distinct due rows, soonest first, cut at the limit, with no sooner one left out |
| ScheduledSend.Store.ClaimIDs | backend/internal/scheduledsend/store.go:300-308 | the loop of updates takes exactly the listed pending rows |
| ScheduledSend.Store.LoadRowsByID | backend/internal/scheduledsend/store.go:311-322 | each listed row as it stands, in the same order |
| ScheduledSend.Store.ClaimDue | backend/internal/scheduledsend/store.go:235-272 | one transaction: a selection, its claim, and the rows as claimed |
| ScheduledSend.Store.MarkSent | backend/internal/scheduledsend/store.go:325-328 | marks by id alone |
| ScheduledSend.Store.MarkFailed | backend/internal/scheduledsend/store.go:331-334 | marks by id alone, with the error |
| ScheduledSend.Store.ResetStale | backend/internal/scheduledsend/store.go:352-363 | returns exactly the stale `sending` rows to `pending` and counts them |
| ScheduledSend.ClaimsEarliest | backend/internal/scheduledsend/store.go:235-308 | a claim moves exactly min(limit, due) rows, leaves none behind that was due sooner, and touches no other |
| ScheduledSend.ClaimedLessThanASecondEarly | backend/storage/storage.go:69-74 | truncation makes a row due early by less than a second and never late |
| Clock.ReadBack | backend/storage/storage.go:69-82 | what is stored is read back as the beginning of its second, except the zero time and the first second of 1970 |
| ScheduledSend.CanBeEarly | backend/storage/storage.go:69-74 | a row that is due almost a second early |
| ScheduledSend.NeverEarlyIffWholeSecond | backend/storage/storage.go:69-74 | a row is never due before its instant if and only if the instant is a whole second |
| SendProtocol.SubmittedAtMostOncePerReset | backend/internal/scheduledsend/store.go:235-363 | over every run a row is submitted at most 1 + resets times, with its own owner and content; while pending or canceled at most as often as it was reset |
| Resubmission.ResubmittedAfterEveryReset | backend/internal/scheduledsend/store.go:325-363 | for every n, a legal run in which a row is reset n times and submitted n + 1 times |
| Resubmission.WhenOneMoreCanFollow | backend/internal/scheduledsend/store.go:235-363 | from a reachable state some run submits the row once more if and only if its status, claim and place in the queue allow it |
| Resubmission.OverForever | backend/internal/scheduledsend/store.go:235-363 | where they do not, no run ever submits it again |
| SendProtocol.AtMostOnceWithoutCrash | backend/internal/api/webmail_scheduled.go:212-264 | without a crash every row is submitted at most once |
| SendProtocol.FinalForever | backend/internal/scheduledsend/store.go:325-334 | once sent, failed or canceled is recorded the row never changes and is never submitted again |
| SendProtocol.CancelIsFinal | backend/internal/scheduledsend/store.go:208-219 | after a cancel that succeeds the row stays canceled and is not submitted in any continuation |
| SendProtocol.ContentNeverChanges | backend/internal/scheduledsend/store.go:157-363 | owner, content and instant of a row never change |
| SendProtocol.SentAsHandedIn | backend/internal/scheduledsend/store.go:157-180 | over every run, a message created is stored and submitted exactly as handed in, blind copies included, for its owner |
| SendProtocol.CreatedPending | backend/internal/scheduledsend/store.go:157-180 | a new row is pending for its instant, unclaimed, and no other row changes |
| SendProtocol.OutcomeIsRecorded | backend/internal/api/webmail_scheduled.go:246-263 | an accepted message ends `sent`, a refused one `failed` with the error, and nothing else of any row changes |
| SendProtocol.NoCredentialIsRecorded | backend/internal/api/webmail_scheduled.go:231-238 | without a credential nothing is sent and the row ends `failed` with the error; a lost mark changes nothing |
| SendProtocol.CancelTouches | backend/internal/scheduledsend/store.go:208-219 | a cancel changes the named row if it is the owner's and pending, and nothing else |
| SendProtocol.SweepLeaves | backend/internal/scheduledsend/store.go:335-363 | a start-up sweep leaves every row claimed within the last 300 seconds, and every row not `sending` |
| SendProtocol.SweepRestores | backend/internal/scheduledsend/store.go:335-363 | it makes a `sending` row claimed 301 seconds ago or more pending, and changes nothing else of it |
| SendProtocol.NoCrashNoReset | backend/internal/scheduledsend/store.go:352-363 | rows are reset only by a restart after a crash |
| SendProtocol.InvRun | backend/internal/api/webmail_scheduled.go:212-264 | every run keeps the invariant: what is in flight is `sending`, as claimed, once only; submissions stay within their budget |
| SendProtocol.BudgetStep | backend/internal/scheduledsend/store.go:235-363 | each step pays for a submission with a claim, and for a claim with a reset |
| Dispatcher.ChooseTime | backend/internal/api/webmail_scheduled.go:110-123 | now plus the undo window, or the given instant; it lies ahead, and a past one is refused |
| Dispatcher.NotClaimedEarly | backend/internal/api/webmail_scheduled.go:110-125 | over any run, no message is claimed a second or more before the instant its sender chose, or the end of the undo window, and never before a chosen whole second |
| Dispatcher.DueFromItsInstant | backend/internal/api/webmail_scheduled.go:110-125 | over any run, a message that still waits is due from its chosen instant, or from the end of the undo window, on |
| Dispatcher.Server.DispatchScheduledSends | backend/internal/api/webmail_scheduled.go:212-225 | a tick is a legal run of the protocol from the old table to the new one: the claim, then every claimed row dealt with in turn whatever became of the others, with nothing left in flight |
| Dispatcher.Server.DispatchOne | backend/internal/api/webmail_scheduled.go:230-264 | one row is exactly a failed mark when no credential is found, and otherwise one submission and the mark of its outcome: `sent` if accepted, `failed` with the error if not; no other row changes |
| Dispatcher.DueRowLeavesPending | backend/internal/scheduledsend/store.go:276-308 | a due row with r pending rows ahead leaves `pending` within r / 20 + 1 ticks of any run, crashes and restarts included, in which rows created or restored lie later |
| SessionStore.HexInjective | backend/internal/sessionstore/store.go:92-95 | different digests have different hexadecimal forms |
| SessionStore.HexAt | backend/internal/sessionstore/store.go:92-95 | two characters a byte, the high half first |
| SessionStore.HexPrefix | backend/internal/auth/auth.go:536-544 | the form of the first n bytes is the first 2n characters |
| SessionStore.SameSessionID | backend/internal/auth/auth.go:536-544 | the ID the map side computes from a token is the first 16 characters of the table's hash |
| SessionStore.Store.Put | backend/internal/sessionstore/store.go:114-121 | one row per hash and kind, replaced with its counter at 0 |
| SessionStore.Store.Get | backend/internal/sessionstore/store.go:125-144 | an expired row is evicted and not found |
| SessionStore.Store.IncrementAttempts | backend/internal/sessionstore/store.go:154-170 | counts first, then looks at the expiry; an expired row is evicted |
| SessionStore.Store.Delete | backend/internal/sessionstore/store.go:175-178 | removes that row and no other |
| SessionStore.Store.ListBySubject | backend/internal/sessionstore/store.go:184-204 | exactly the subject's unexpired rows of the kind, each once |
| SessionStore.Store.DeleteByHash | backend/internal/sessionstore/store.go:220-227 | removes that row and says whether it was there |
| SessionStore.Store.DeleteBySubjectExcept | backend/internal/sessionstore/store.go:232-240 | removes the subject's rows of the kind but one, and counts them |
| SessionStore.Store.GC | backend/internal/sessionstore/store.go:245-248 | removes rows of every kind whose second has come |
| SessionRefinement.StoreRefinesMap | backend/internal/auth/auth.go:229-386 | after every history, revocations by ID included, the two back ends answer alike about a token, except that from the second of its expiry to the expiry the table refuses earlier |
| SessionRefinement.WhenTheyDiffer | backend/internal/sessionstore/store.go:125-144 | look-ups, and attempts while any are left, differ about a token if and only if memory holds it, the expiry has not passed, and either its second has or a sweep in the first instant of it took the row; or, in that instant, a revocation by ID left the row |
| SessionRefinement.RelatedRun | backend/internal/auth/auth.go:229-515 | every history keeps the refinement relation, revocation by ID, sweeps and other managers' rows included |
| SessionRefinement.EarlyRejection | backend/internal/sessionstore/store.go:125-144 | a history after which only the table refuses |
| SessionRefinement.FirstSecondOf1970IsLost | backend/storage/storage.go:69-82 | why expiries are assumed outside that second: stored as 0, one there would read back as the zero time |
| SessionRefinement.PeekFindsWhatItCounted | backend/internal/webmail/session.go:220-240 | the second look of Peek finds the row its increment left |
| SessionRefinement.RevocationIsFinal | backend/internal/auth/auth.go:379-489 | a token logged out, or revoked by keeping another, is refused by both back ends after every continuation |
| SessionRefinement.RevocationByIdIsFinal | backend/internal/auth/auth.go:441-465 | a token revoked by its ID is refused by both back ends after every continuation, unless revocation and look-up fall in the first instant of the second of its expiry |
| SessionRefinement.RevokeByIdIsLogout | backend/internal/auth/auth.go:441-465 | while the table lists it, revoking by ID removes the same one token from both back ends, as logging it out does |
| SessionRefinement.RevokedButFoundOnTheSecond | backend/internal/auth/auth.go:441-465 | a history with that exception: revoked, refused by memory, still found by the table |
| SessionRefinement.OwnedRun | backend/internal/auth/auth.go:229-515 | every row and entry of a manager is that of a token it minted |
| SessionRefinement.RevokedForever | backend/internal/auth/auth.go:328-489 | a token gone from both back ends never comes back |
| SessionRefinement.RevocationIsScoped | backend/internal/sessionstore/store.go:232-240 | revoking all but one leaves that one, other kinds and other subjects as they were, and removes exactly the rest |
| SessionRefinement.SweepUnseenLater | backend/internal/sessionstore/store.go:245-248 | a sweep never changes a look-up at a later instant |
| SessionRefinement.SweptExactly | backend/internal/sessionstore/store.go:245-248 | a sweep leaves no expired entry, in memory or in the table, and keeps every other as it was |
| SessionRefinement.OtherKindsUnseen | backend/internal/auth/auth.go:34-41 | rows of another kind make no difference to any look-up or attempt of a manager |
| SessionRefinement.OperationsStay | backend/internal/sessionstore/store.go:125-178 | look-ups, attempts and deletions of one kind change no answer of another |
| Sessions.KindsDiffer | backend/internal/auth/auth.go:34-41 | the five kinds of token are all different |
| SessionRefinement.ExactlyFiveTries | backend/internal/auth/auth.go:291-324 | in memory, of any attempts before the expiry exactly the first five succeed |
| SessionRefinement.ExactlyFiveTableTries | backend/internal/webmail/session.go:190-240 | in the table, of any attempts up to the second of the expiry exactly the first five succeed |
| AttemptBudget.AtMostFiveAnswers | backend/internal/auth/auth.go:291-324 | whatever the interleaving of statements of any number of instances, one pending token gets at most five successes |
| AttemptBudget.FiveAnswersReached | backend/internal/auth/auth.go:291-324 | the five are there to be had: a token just issued answers its first five calls |
| AttemptBudget.UsedStep | backend/internal/sessionstore/store.go:154-170 | only an increment of a live row uses up an attempt, one each |
| AttemptBudget.GoneForever | backend/internal/sessionstore/store.go:154-178 | once its row is gone a token gains no success beyond calls already past their increment |
| Sessions.Authenticator.MintSession | backend/internal/auth/auth.go:229-250 | records the token with its expiry, in one back end only; it stands for the administrator until then, and no pending token is touched |
| Sessions.Authenticator.IssuePending | backend/internal/auth/auth.go:263-283 | records a pending token that stands for the administrator for 300 seconds, and changes no session look-up |
| Sessions.Authenticator.VerifyPending | backend/internal/auth/auth.go:291-324 | performs the two specified attempts, by map and by table, and changes no session look-up |
| Sessions.Authenticator.ConsumePending | backend/internal/auth/auth.go:328-336 | removes the pending token and nothing else, and changes no session look-up |
| Sessions.Authenticator.Validate | backend/internal/auth/auth.go:343-374 | performs the two specified look-ups; the empty token is never valid, and no pending token is touched |
| Sessions.Authenticator.Logout | backend/internal/auth/auth.go:379-387 | removes the session and nothing else |
| Sessions.Authenticator.RevokeByID | backend/internal/auth/auth.go:441-465 | removes one session with that ID, or none if there is none; the only one, if IDs tell sessions apart |
| Sessions.Authenticator.RevokeAllExcept | backend/internal/auth/auth.go:470-489 | removes every session but one and counts them |
| Sessions.Authenticator.GC | backend/internal/auth/auth.go:495-515 | sweeps both maps, or the table |
| Sessions.SweepMap | backend/internal/auth/auth.go:502-514 | the loop removes exactly the expired entries |
| Sessions.WebmailSessions.Mint | backend/internal/webmail/session.go:114-143 | keeps the password, sealed in the table; the token stands for its mailbox until it expires |
| Sessions.WebmailSessions.Get | backend/internal/webmail/session.go:146-171 | performs the two specified look-ups, opening the sealed password |
| Sessions.WebmailSessions.Peek | backend/internal/webmail/session.go:190-216 | performs the two specified attempts |
| Sessions.WebmailSessions.PeekStoreBacked | backend/internal/webmail/session.go:220-240 | increment, limit, second look and decryption are the specified attempt |
| Sessions.WebmailSessions.Delete | backend/internal/webmail/session.go:174-182 | removes the token and nothing else |
| Sessions.WebmailSessions.GC | backend/internal/webmail/session.go:278-292 | sweeps the map, or the table |
| Sessions.DomainSessions.Create | backend/internal/domainadmin/session.go:75-97 | records the identity with its expiry, in one back end only; the token stands for it until then |
| Sessions.DomainSessions.Get | backend/internal/domainadmin/session.go:100-127 | performs the two specified look-ups |
| Sessions.DomainSessions.Delete | backend/internal/domainadmin/session.go:130-138 | removes the token and nothing else |
| Sessions.DomainSessions.GC | backend/internal/domainadmin/session.go:141-156 | sweeps the map, or the table |
| RateLimit.Limiter.Allow | backend/internal/ratelimit/ratelimit.go:45-67 | counts one request in its key's window, permits or denies it with a wait, and leaves other keys alone |
| RateLimit.Limiter.GC | backend/internal/ratelimit/ratelimit.go:71-80 | the loop removes exactly the elapsed windows |
| RateLimit.GcIsInvisible | backend/internal/ratelimit/ratelimit.go:45-80 | inserting or removing sweeps anywhere in a run changes no answer |
| RateLimit.SweptExactly | backend/internal/ratelimit/ratelimit.go:71-80 | a sweep removes exactly the windows that have elapsed |
| RateLimit.NoLimit | backend/internal/ratelimit/ratelimit.go:45-48 | a limit of zero or less permits all and counts nothing |
| RateLimit.BackwardsClockShowsGc | backend/internal/ratelimit/ratelimit.go:71-80 | why GcIsInvisible asks for a clock that does not go back: on another, a sweep could change an answer |
| RateLimit.SlidingWindowBound | backend/internal/ratelimit/ratelimit.go:45-67 | any half-open interval as long as the window holds at most 2 * max - 1 permitted requests of a key |
| RateLimit.SlidingWindowBoundIsSharp | backend/internal/ratelimit/ratelimit.go:45-67 | that bound is reached for every limit |
| RateLimit.AllowanceStep | backend/internal/ratelimit/ratelimit.go:45-80 | no step permits more than it takes off the allowance left to an interval |
| RateLimit.WindowPermitsExactly | backend/internal/ratelimit/ratelimit.go:45-67 | a fixed window permits exactly min(max, requests made) |
| RateLimit.HonestWait | backend/internal/ratelimit/ratelimit.go:55-67 | after any run, a denial's wait is positive and at most the window; until it is over the key is denied, from then on permitted |
| SieveRules.TwoPassesAreOne | backend/internal/api/webmail_rules.go:75-79 | replacing backslashes, then quotes, is escaping both in one pass |
| SieveRules.QuotingIsSelfDelimiting | backend/internal/api/webmail_rules.go:73-79 | lexing a quoted text followed by anything gives exactly the text and what followed |
| SieveRules.ScriptIsTheRule | backend/internal/api/webmail_rules.go:60-71 | the whole script lexes to the one rule on the header the field names, whatever value and folder hold |
| SieveRules.MetaRoundTrip | backend/internal/api/webmail_rules.go:81-96 | the script begins with "# mailfold-rule: " and the metadata; what is read back is the rule it was printed from |
| SieveRules.OtherScriptsAreNoRules | backend/internal/api/webmail_rules.go:85-89 | a script whose first line does not begin so is no rule |
| SharedMailbox.Store.DeleteMailbox | backend/internal/sharedmailbox/store.go:229-241 | runs the four deletes in order and stops at the first that fails |
| SharedMailbox.Store.AddMember | backend/internal/sharedmailbox/store.go:247-252 | adds or refreshes one member |
| SharedMailbox.Store.SetAssignment | backend/internal/sharedmailbox/store.go:295-302 | sets or replaces one message's assignment |
| SharedMailbox.Store.AddNote | backend/internal/sharedmailbox/store.go:347-358 | adds one note under a new id, with its author and body, and changes nothing else |
| SharedMailbox.Store.GetAssignment | backend/internal/sharedmailbox/store.go:311-322 | the assignee of a message, if it has one |
| SharedMailbox.Store.AssignmentsForFolder | backend/internal/sharedmailbox/store.go:326-342 | exactly the assignments of the folder, by message |
| SharedMailbox.Store.ListNotes | backend/internal/sharedmailbox/store.go:361-379 | exactly the notes on a message, each once, by time and then by id |
| SharedMailbox.Store.NoteCountsForFolder | backend/internal/sharedmailbox/store.go:405-421 | for each message with notes, how many it has |
| SharedMailbox.Store.EnrichShared | backend/internal/api/webmail_shared.go:336-353 | each listed message gets its own assignee and its own number of notes, and nothing else changes |
| SharedMailbox.WriteKeepsSafeIffChecked | backend/internal/api/webmail_shared.go:200-294 | a handler's write keeps deletions sound if and only if its mailbox is still there and no deletion has passed that table |
| SharedMailbox.OtherStepsKeepSafe | backend/internal/sharedmailbox/store.go:229-241 | creations, look-ups, deletes and stops at any statement keep them sound |
| SharedMailbox.CheckedRunsHaveNoOrphans | backend/internal/sharedmailbox/store.go:226-241 | in runs whose writes meet that condition no row ever lacks its mailbox, even when deletions stop half-way |
| SharedMailbox.UncheckedWriteOrphans | backend/internal/api/webmail_shared.go:273-294 | a write that does not meet it leaves an orphan, at once or when the deletion runs on |
| SharedMailbox.NoteInheritedByReusedId | backend/internal/api/webmail_shared.go:273-294 | a run in which a new mailbox inherits a note written for a deleted one |
| CalendarGuests.Event.EditGuests | backend/internal/api/calendar.go:327-355 | kept entries come first, in order and with parameters; then one new entry for each missing guest |
| CalendarGuests.Event.AddGuests | backend/internal/api/calendar.go:674-684 | adds an entry for each guest that is not blank and does not fold to the owner, as typed |
| CalendarGuests.Event.AddOwnerAttendee | backend/internal/api/calendar.go:686-696 | adds the owner's entry with its RSVP, if there is an owner |
| CalendarGuests.WantedGuests | backend/internal/api/calendar.go:328-333 | the set asked for: trimmed, not blank, not folding to the owner as written, in lower case |
| CalendarGuests.KeepWanted | backend/internal/api/calendar.go:334-346 | keeps exactly the wanted entries and those whose lower-cased address folds to the owner, and knows who is covered |
| CalendarGuests.EventGuests | backend/internal/api/calendar.go:493-503 | the addresses that are neither blank nor fold to the owner, in order and as often as they occur |
| CalendarGuests.ListInOrder | backend/internal/api/calendar.go:493-503 | the list of two parts is the list of one, then of the other |
| CalendarGuests.GuestsAreThoseAskedFor | backend/internal/api/calendar.go:325-355 | by editGuests' own notion of the owner, which folds the lower-cased address where eventGuests folds the written one, the guests are afterwards exactly those requested if and only if no wanted address, once in lower case, folds to the owner |
| CalendarGuests.SecondRunChangesNothing | backend/internal/api/calendar.go:325-355 | doing it again changes nothing, order and parameters included, if and only if no wanted address, once in lower case, folds to the owner |
| CalendarGuests.SecondRunAdds | backend/internal/api/calendar.go:325-355 | doing it again keeps the whole list and adds exactly one entry for each wanted address that does |
| CalendarGuests.EditThenRead | backend/internal/api/calendar.go:325-503 | the guests shown after an edit are those requested if and only if the addresses shown before that fold to the owner in lower case are exactly the wanted ones that do, and no wanted guest was there without being shown |
| CalendarGuests.ShownAfter | backend/internal/api/calendar.go:325-503 | what is shown after an edit: the wanted guests, less those mistaken for the owner and those there before without being shown, and all that was shown before and folds to the owner in lower case |
| CalendarGuests.NothingHidden | backend/internal/api/calendar.go:336-503 | where whatever folds to the owner still does so in lower case, no guest is there without being shown |
| CalendarGuests.CreateThenRead | backend/internal/api/calendar.go:640-696 | a new event shows exactly the guests requested, mistaken ones included |
| CalendarGuests.CreateThenEdit | backend/internal/api/calendar.go:325-696 | an edit of a new event goes on showing every guest that was mistaken for the owner at its creation; it shows those requested now if and only if the same are mistaken now and none of them is there without being shown (never so for an owner to whom all that folds still does in lower case) |
| CalendarGuests.DottedGuestStays | backend/internal/api/calendar.go:325-696 | a guest invited at creation that an edit asking for no guests leaves in the event, shown |
| CalendarGuests.DottedGuestIsAddedAgain | backend/internal/api/calendar.go:328-353 | an owner and a guest for which each edit adds one more entry that is never shown |
| CalendarGuests.OwnersUntouched | backend/internal/api/calendar.go:325-355 | the owner's own entries stay as they are, in order, and no other is taken for one if and only if no wanted address, once in lower case, folds to the owner |
| CalendarGuests.KeptGuests | backend/internal/api/calendar.go:336-346 | the guests kept are those both invited before and wanted |
| DavPaths.ObjectRoundTrip | backend/internal/dav/paths.go:42-75 | an object's path gives back collection and uid, dots or not, if and only if the user does not begin with a slash or what follows its slashes is nothing or begins with the collection |
| DavPaths.CollectionRoundTrip | backend/internal/dav/paths.go:39-64 | a collection's path gives back its id for exactly the same users |
| DavPaths.Parts | backend/internal/dav/paths.go:48-55 | the segments found below any user at all |
| DavPaths.PathsAreDistinct | backend/internal/dav/paths.go:42-75 | two objects of one user never share a path |
| DavPaths.PrefixIsOptional | backend/internal/dav/paths.go:46-75 | under the mounts "/dav/caldav" and "/dav/carddav", paths of every user with an e-mail address lead back to collection and object without the prefix too |
| DavPaths.BareObject | backend/internal/dav/paths.go:46-75 | under a mount of two segments, an object's path without the prefix leads back if and only if the user is not named like the first segment with a collection that begins like the second |
| DavPaths.BareCollection | backend/internal/dav/paths.go:46-64 | the same for collections |
| DavPaths.ShorterPathsAreErrors | backend/internal/dav/paths.go:58-72 | a home path is no collection and a collection's path no object |
| DavPaths.NoExtension | backend/internal/dav/paths.go:68-75 | a file name without a dot is the uid itself |

## Left out

- IMAP, SMTP, mailcow, OIDC, WebAuthn and Web Push: network calls and libraries not seen here; a send is one step that succeeds or fails.
- AES-GCM, SHA-256, random tokens, bcrypt and the JSON and iCalendar codecs: parameters with the laws stated above.
- TOTP, HKDF, scope lists, metrics, audit paging and quote collapsing: they would add only easy members.
- BootstringDoubles.AnswersAlike: says nothing of labels longer than 1,927 characters, where an index of a valid code point may pass 2^31.
- Bootstring.Decode: is stated on mathematical integers, and does not model the limit on the number of arguments that String.fromCodePoint accepts, which only very long labels meet.
- Idn.WhenEveryLabelIsDecoded: lower-casing is that of ASCII letters, as only they can spell the prefix.
- Dispatchers in several processes, which the code says it is not built for, and any claim that every stranded row is recovered: the sweep runs at start-up only and skips rows claimed in the last five minutes.
- The copy to the Sent folder and the credential look-up of a send: they do not touch the queue.
- Dispatcher.Server.DispatchScheduledSends: does not model a claim that fails, which leaves the table as it was; runs of the protocol do include claims whose result is lost.
- SendProtocol.SubmittedAtMostOncePerReset: a submission is a call to SMTP; what a server does with a message it accepted but did not acknowledge is outside the model.
- Database errors in the session store: apart from lost marks, failing deletes and interrupted calls, statements are taken to succeed.
- Take and ConsumeResetToken under concurrency: they read and then write, so single use holds only for calls that do not overlap.
- ListSessions, which differs between back ends because the map form also lists expired entries.
- Sessions.Authenticator.RevokeByID: when two sessions share the first eight bytes of their digests either may be the one removed, as in the source.
- SessionRefinement.StoreRefinesMap: a history uses one administrator, as the program does, so that revoking the others concerns the same sessions in both back ends.
- SharedMailbox.UncheckedWriteOrphans: the membership check that setting an assignment makes before it writes is not a step of its own; it is a read like the look-up and does not close the gap.
- Creation, removal of single members, assignments and notes in the shared-mailbox store: plain statements that add no dependency between tables.
- DavPaths.BareObject: users are one segment, as mailbox names are, and mounts two, as the program's are.
- Sieve syntax beyond the tokens of a rule: comments in brackets, numbers and multi-line strings never occur in a printed rule.
- React pages, routing, configuration, middleware and CORS.
