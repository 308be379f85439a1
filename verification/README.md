# A verified model of the notes service

The service keeps notes that people share with one another and with teams. This project models its
persistent state (users, teams, members, notes, grants, attachment rows and stored objects) as one
machine on which every handler and the sweep command is a step, and proves what holds over all runs
of it. It also models the keyset list query, the small text codecs that carry versions, cursors and
attachment references, and, statement by statement, the two protocols whose safety does not depend on
requests running alone.

`dafny verify dfyconfig.toml` checks everything.

## How the files fit together

- Text and codecs: `Text`, `Numerals`, `Uuids`, `Base64Url`, `ETags`, `Cursors`, `Tags`, `References`;
  `Vectors` has texts known from the standards.
- State and statements: `Schema` (tables), `Sql` (conditional statements), `Authz`, `Access` (the role
  of a user on a note, and `load`).
- Handlers as functions from a state to a state and a reply: `Notes`, `Shares`, `Teams`, `Accounts`,
  `Attachments`; `Machine` puts them together into steps and runs.
- `Service` holds the same handlers in their own form: a class whose fields are the tables, with
  methods that update them one statement after the other. Each method is proved equal to the function
  about it and to keep the invariant.
- What is proved about the steps: `Effects` (each step does one of few things, under checks it rests
  on), `Integrity` (the invariant of all reachable states), `Confinement` (how access can spread),
  `Visibility` and `Disclosure` (what the replies to reads and to writes depend on), `Retries`,
  `Grants`, `Files` (what one request lets the next one rely on), `Answers` (which status each request
  gets, and what reads send).
- The list: `Keyset` (pages of an ordered set), `Listing` (filter, order, page), `ListQuery` (query
  string), `Walk` (page after page while others write), `Witnesses` (runs in which a walk misses a note
  or repeats one).
- Interleaved statements: `Versions` (compare-and-set on `version`), `Uploads` (the life of an
  attachment).

## Granularity and assumptions

- **Request by request.** In `Machine`, and so in `Integrity`, `Confinement`, `Walk`, `Disclosure`,
  `Retries`, `Grants`, `Files` and `Answers`, a handler or transaction is one atomic step. This is an assumption:
  `Store.Tx` opens a transaction with default isolation (internal/store/store.go:32-47), and several
  handlers check outside any transaction. Failures are inside the step: `faults` names the write
  calls that fail, any of them, in any combination.
- **Statement by statement.** In `Versions` and `Uploads` each SQL statement or object-store call is
  atomic, and any number of requests interleave.
- Time is a counter that grows with every step, so `now()` of a later request is later.
- Ids are numbers in the order in which Postgres compares UUIDs; a search rank is its place in the
  order of ranks. Full-text search is a pair of unknown functions: what matches, and its rank.
- The text form of a rank (`RankText`) is assumed to parse back and to hold no `|`; where a lemma
  needs that it says `Faithful`.
- `strings.ToLower` is a rune mapping passed in as `lower`. Idempotence of tag normalisation, and
  nothing else, needs two facts about it (`CaseMap`): mapping twice changes nothing more, and no
  other rune is mapped to white space.
- A new row's id is a parameter, and so is an object key. One that is taken fails the insert, as the
  primary key and the unique index do.
- A client may store any bytes under any key at any time (`Put`) and never deletes.
- A read that fails ends its request without an effect; this is the step `Idle`.

## Where the code and its comments or documents differ

- `deleteAttachment` says an object left behind is collected by the sweep
  (internal/notes/attachments.go:249-251). The sweep reads pending rows only;
  `Files.OrphanOutlivesSweep` shows that such an object stays.
- `referencedIDs` misses a reference whose leading `a` ends the reference before it
  (`References.AdjacentReferenceIsMissed`). `References.ReferencedExactly` says which are missed, and
  `References.NothingIsMissedWhen` in which texts none are; in Markdown form none are
  (`References.ScanInvertsRender`).
- The list is meant neither to skip nor to repeat (internal/store/notes_list.go:60-64). In both orders
  that holds for every note that keeps matching and keeps its place (`Walk.WalkSurvivesWriters`). A
  note that moves can be missed (`Witnesses.ChangedNoteIsMissed`) or, in relevance order, come twice
  (`Witnesses.FallingNoteComesTwice`); `Walk.ChangedNoteIsPassedOver` and
  `Walk.FallenRankIsReceivedAgain` say exactly when.
- A 409 says that the note has changed since it was read (internal/notes/handler.go:235-237). A client
  that guessed its version can be told that very version; `Versions.ConflictIsLargerWhen` says exactly
  when a 409 is sure to report a larger one, and a version that was read always qualifies.
- A ready attachment's object is stored while requests run one at a time (`Integrity.ReachableIsOk`).
  Between the statements of a sweep, or of a second completion, it can be lost;
  `Uploads.ReadyObjectIsSafeWhen` says exactly when it is safe: when nothing under way holds its key.
- A deleted note is said to disappear for everyone it was shared with
  (internal/notes/handler.go:295-296). Restoring it answers 403 to exactly those who have a role on it
  and 404 to others (`Disclosure.DeletedNoteShowsInRestore`); every other reply is as if it were gone.
- `If-Match` compares strongly by section 13.1.1 of RFC 9110; the code accepts a `W/` prefix, repeated
  quotes, a plus sign and leading zeros. `ETags.IfMatchReadsSpellings` lists everything it accepts.

## Model

| member | source | states |
|---|---|---|
| Integrity.ReachableIsOk | internal/teams/handler.go:183-195 | in every reachable state, whatever fails: no two live accounts share an address; each grant names a live user other than the owner or an existing team, has a grantable role and was given by the owner; each team has an admin; each ready attachment's object is stored, keys are unique and sizes within the limit; each id found in a body is a ready attachment of the same note |
| Integrity.EventKeepsInv | internal/store/store.go:32-47 | every step of every handler and of the sweep, with any set of failing calls, keeps that invariant |
| Integrity.RunKeepsInv | internal/store/store.go:26-47 | so does every run, from any state that has it |
| Integrity.GrantsStayOk | internal/notes/shares.go:66-163 | share, revoke, team deletion and account deletion leave no grant that names nobody, the owner or a missing team |
| Integrity.TeamsStayOk | internal/teams/handler.go:265-372 | adding, promoting, demoting, removing and leaving keep an admin in every team |
| Integrity.AttachmentsStayOk | internal/notes/attachments.go:135-257 | completion, deletion, oversized uploads, re-uploads and the sweep never leave a ready row without its object |
| Integrity.ReferencesStayOk | internal/notes/attachments.go:276-311 | no step leaves a body, deleted notes included, that names something other than a ready attachment of its note |
| Integrity.NotesStayOk | migrations/00001_initial_schema.sql:43-58 | versions stay between 1 and the largest 32-bit integer, owners exist and no note is from the future |
| Integrity.AddressesStayOk | migrations/00001_initial_schema.sql:20-22 | registering, editing and deleting accounts never give two live ones the same address |
| Integrity.SweepKeepsFiles | cmd/sweep/main.go:88-105 | from any point of its loop, with any failures, the sweep loses pending rows only and keeps every ready object |
| Integrity.AnotherAdmin | internal/teams/handler.go:351-372 | a team that counts more than one admin has one besides any given user |
| Effects.EventHasEffect | internal/notes/handler.go:298-330 | each step, however it ends, does nothing, or one of the listed changes with the checks that go with it: only the owner sets a grant, only a pending row becomes ready, only an unreferenced attachment goes |
| Effects.OwnerActions | internal/authz/role.go:112-125 | whoever may delete, restore, share or revoke owns the note: no grant ranks that high |
| Confinement.RoleRisesOnlyByOwnerOrJoining | internal/notes/shares.go:66-163 | one step raises a user's role on a note only if the owner takes it or it makes that user a member of a team with a grant |
| Confinement.RolesNeverRise | internal/notes/shares.go:66-163 | over every run in which the owner takes no step and this user joins no team with a grant, the user's role on the note does not rise, whatever anybody else joins |
| Confinement.GrantsOnlyShrink | internal/notes/shares.go:61-65 | without the owner no grant on a note is added or changed, and the owner stays the owner |
| Confinement.NewPrincipalsRaiseNobody | internal/users/handler.go:77-127 | registering an account or creating a team raises nobody's role, because no grant names a missing principal |
| Confinement.DanglingGrantWouldResolve | internal/store/sqlcgen/teams.sql.go:83-94 | the reason team deletion removes grants: one that named a missing team would give its role to whoever creates a team of that id |
| Confinement.LeavingDropsTeamGrants | internal/teams/handler.go:307-343 | once a user has left a team, exactly the grants not made to that team decide their role |
| Access.RoleIsStrongestGrant | internal/store/sqlcgen/notes.sql.go:84-103 | a non-owner holds at least a role if and only if one single matching grant gives it |
| Access.EditorOutranksViewer | internal/authz/role.go:12-23 | a user with both grants is an editor: ranks are compared as numbers, not as names |
| Access.LoadDecides | internal/notes/handler.go:286-330 | 404 exactly when the note is absent, invisible or deleted (unless restoring), 403 exactly when it is visible and the role too low, otherwise the note with the caller's role |
| Answers.WhoMayDoWhat | internal/authz/role.go:112-138 | viewers read, list shares and download; editors also update and handle attachments; the rest is the owner's |
| Answers.RolesAre | internal/store/sqlcgen/notes.sql.go:84-103 | the third rank is the owner's alone, the second needs a matching editor grant, the first any matching grant |
| Answers.LoadBars | internal/notes/handler.go:298-330 | `load` bars with 404 those without a role and everyone from a deleted note, with 403 those whose rank is too low |
| Answers.GetIsAnswered | internal/notes/handler.go:130-140 | a read sends the note as it stands with the caller's own role |
| Answers.CreationIsAnswered | internal/notes/handler.go:86-128 | 400 exactly for a blank title, one over 512 bytes, bad tags or a reference; otherwise 201 unless the insert fails |
| Answers.PreconditionIsRequiredWhen | internal/notes/handler.go:338-352 | 428 exactly for a blank header and for `*` |
| Answers.UpdateIsAnswered | internal/notes/handler.go:153-240 | which of 404, 403, 428, 400, 409 and 200 an update gets; a 409 names the version sent and carries the note as it stands with the caller's role |
| Answers.ConflictIsAnswered | internal/notes/handler.go:223-240 | when the conditional write met no row: 404 if the note is gone or deleted, otherwise a 409 that names the version sent and carries the note as it stands |
| Answers.DeletionIsAnswered | internal/notes/handler.go:242-260 | which status a deletion gets, and the note it leaves |
| Answers.RestorationIsAnswered | internal/notes/handler.go:264-284 | 404 without a role, 403 to all but the owner, 409 if the note is live, otherwise 200 |
| Answers.ShareIsAnswered | internal/notes/shares.go:66-163 | 400 for a bad role, kind or the owner, 404 for a principal that is no live user or no team of the owner's, otherwise 204 |
| Answers.RevocationIsAnswered | internal/notes/shares.go:166-198 | 404 for a grant that is not there, otherwise 204 |
| Answers.ShareListIs | internal/notes/shares.go:34-59 | a share list has exactly one entry per grant on the note, with its role, date and the name of whom it is for; every reader of the note gets it |
| Answers.FileListIs | internal/notes/attachments.go:189-214 | an attachment list has exactly the ready attachments of the note; every reader of the note gets it |
| Answers.ReservationIsAnswered | internal/notes/attachments.go:62-126 | 400 for a bad name, size or type, 500 if the insert or the signing fails, otherwise 201 |
| Answers.CompletionIsAnswered | internal/notes/attachments.go:135-186 | 404, 409 without an object, 413 for one too large, which is then discarded, 200 otherwise and again for a ready one |
| Answers.RemovalIsAnswered | internal/notes/attachments.go:222-274 | 404 for another note's attachment, 409 while the text names it, otherwise 204 |
| Answers.TeamCreationIsAnswered | internal/teams/handler.go:68-106 | 400 for a blank name or one over 128 bytes; a team is stored under its trimmed name with its creator as admin, or not at all |
| Answers.RenamingIsAnswered | internal/teams/handler.go:142-168 | 404 to those who are no members, 403 to members, 400 for a bad name; otherwise the trimmed name is stored |
| Answers.TeamDeletionIsAnswered | internal/teams/handler.go:176-205 | 404 to those who are no members, 403 to members; a failing call leaves everything |
| Answers.MemberAdditionIsAnswered | internal/teams/handler.go:235-285 | which of 404, 403, 400, 409 and 204 adding a member gets |
| Answers.MemberRemovalIsAnswered | internal/teams/handler.go:287-343 | which of 404, 403, 409 and 204 removing a member gets |
| Answers.LeavingIsAnswered | internal/teams/handler.go:307-343 | 404 to those who are no members, 409 to the only admin, otherwise 204 |
| Answers.RegistrationIsAnswered | internal/users/handler.go:77-127 | 409 exactly if a live account has the address; otherwise the account is stored with it |
| Answers.ProfileUpdateIsAnswered | internal/users/handler.go:209-252 | 401 without a live account, 409 for an address in use; fields that are carried are set and the others kept |
| Answers.AccountDeletionIsAnswered | internal/users/handler.go:301-334 | 401 without a live account or if a call fails, otherwise the account is marked deleted |
| Retries.UpdateAcceptedWhen | internal/notes/handler.go:153-221 | a patch is accepted if and only if the caller is an editor of a live note, the header names its current version, and title, tags and references pass; then carried fields are set, others kept, the version grows by one, and nothing else changes |
| Retries.RetryAfterConflictSucceeds | internal/notes/handler.go:223-240 | the patch of a 409, sent again under the entity tag of the note it reported, is accepted if nobody writes in between |
| Retries.SecondUpdateConflicts | internal/store/sqlcgen/notes.sql.go:209-220 | of two updates naming one version the second is never accepted, is a 409 exactly when it is otherwise acceptable, and then reports the next version |
| Retries.RestoreUndoesDelete | internal/notes/handler.go:242-284 | deleting and then restoring are both accepted if and only if the caller owns the live note and its version can grow by two; together they give back the note, all tables and every user's role, but for two versions and the time |
| Retries.RestorationSendsRestored | internal/notes/handler.go:264-284 | a restoration sends the note as it has become: live, of the next version, with the owner's role |
| Retries.PatchAfterRestoration | internal/notes/handler.go:280-283 | an acceptable patch under the entity tag of that reply is accepted if nobody writes in between |
| Retries.PatchAfterRead | internal/notes/handler.go:130-140 | so is one under the tag of a read, from whoever may edit |
| Retries.PatchAfterUpdate | internal/notes/handler.go:218-220 | and one under the tag of an update |
| Retries.CreationAcceptedWhen | internal/notes/handler.go:86-128 | a note is created if and only if title, tags and text are acceptable, a text that refers to an attachment never is; its version is 1 and its creator alone has a role on it |
| Grants.RevocationAcceptedWhen | internal/notes/shares.go:165-198 | only the owner revokes a grant, and afterwards exactly the other grants decide everyone's role |
| Grants.AccountDeletionIsWhole | internal/users/handler.go:301-334 | an account goes with every grant to it, or nothing at all; notes, memberships and other users' roles stay |
| Grants.DeletionUndoesCreation | internal/teams/handler.go:68-205 | deleting a team that was just created gives back every table |
| Files.ReservationAcceptedWhen | internal/notes/attachments.go:62-126 | a row is reserved if and only if an editor of a live note announces an accepted name, size and type; it is pending, and it stays even when signing the upload fails |
| Grants.ShareAcceptedWhen | internal/notes/shares.go:66-163 | a share is accepted if and only if the caller owns the live note, the role is viewer or editor, and the principal is a live other user or a team of the caller's |
| Grants.ShareIsStored | internal/notes/shares.go:66-128 | an accepted share stores one grant, with the role asked for, the caller as granter and the date of the first share; nothing else changes |
| Grants.ShareGivesRole | internal/store/sqlcgen/shares.sql.go:125-131 | after a share a user's role is the stronger of the new grant, if it reaches them, and of the grants to other principals |
| Grants.RevokeUndoesShare | internal/notes/shares.go:166-198 | revoking a new share gives back every table as it was |
| Grants.LastShareDecides | internal/store/sqlcgen/shares.sql.go:125-131 | sharing again with the same principal replaces the role, adds no row and keeps the date |
| Grants.GuardFindsOnlyAdmin | internal/teams/handler.go:351-372 | the admin count stops a removal if and only if the user is an admin and nobody else is |
| Grants.LeaveAcceptedWhen | internal/teams/handler.go:307-343 | a member leaves if and only if they are not the only admin; only their own membership goes |
| Grants.MemberRoleIsSetWhen | internal/teams/handler.go:235-285 | an admin sets a member's role if and only if the user exists and the team keeps an admin; nobody else's membership changes |
| Grants.MemberRemovalAcceptedWhen | internal/teams/handler.go:287-343 | an admin removes exactly the member named; 409 means exactly that this is the only admin |
| Grants.RemovalDropsTeamGrants | internal/teams/handler.go:321-326 | whoever is removed keeps exactly the roles that grants other than the team's give |
| Files.CompletionAcceptedWhen | internal/notes/attachments.go:135-186 | a pending attachment becomes ready if and only if an editor completes it and an object of accepted size is stored; it then carries the stored size and checksum |
| Files.CompletionIsIdempotent | internal/store/sqlcgen/attachments.sql.go:198-203 | completing again answers the same row and changes nothing, even after other bytes were uploaded |
| Files.RemovalAcceptedWhen | internal/notes/attachments.go:222-257 | an attachment goes if and only if an editor asks, the body does not name it and its row can be deleted; a failing object deletion does not matter |
| Files.ShownFilesDecide | internal/notes/attachments.go:282-324 | a body of Markdown references is usable if and only if each id shown is a ready attachment of the note |
| Files.ShownFileStays | internal/notes/attachments.go:216-241 | while a saved body shows an attachment nobody can delete it |
| Files.OrphanOutlivesSweep | internal/notes/attachments.go:249-255 | an object whose row is gone stays stored, and no row leads to it, over every run, sweeps included, in which its key is not reserved again |
| Files.SweepDoes | cmd/sweep/main.go:88-105 | with any failures, the object of a listed row is gone if and only if deleting it did not fail, the row if and only if neither call failed, and every other row, object and table is as before |
| Files.CleanSweepLeavesNothing | cmd/sweep/main.go:88-105 | without failures nothing listed is left, neither row nor object |
| Files.UploadIsCompleted | internal/notes/attachments.go:56-186 | reserving, storing and completing gives a ready attachment of the stored size and checksum, which the note's list shows |
| Listing.ListNotes | internal/store/notes_list.go:102-247 | collecting conditions, asking for one row more than the limit and cutting it off gives the page: rows in falling order of time, or of rank, and of id where that is equal; every other match past the cursor comes after the last row; the cursor names that row and is sent exactly if such matches remain |
| Listing.RowsAreFound | internal/store/notes_list.go:207-235 | each row is a selected note past the cursor as it stands, with the caller's role, the number of its ready attachments and its rank |
| Listing.RowsAreInOrder | internal/store/notes_list.go:197-200 | for any two rows the earlier has the later time, or rank, or at equal ones the greater id |
| Listing.RestIsAfter | internal/store/notes_list.go:187-200 | whatever is selected past the cursor and not on the page comes after every row of it |
| Listing.CursorIsAtEnd | internal/store/notes_list.go:202-245 | a cursor is sent if and only if something selected is left; it holds time, id and rank of the last row, and the page is full then |
| Listing.Assemble | internal/store/notes_list.go:130-195 | the conditions gathered are exactly those of the filters present |
| Listing.ConjunctsSelect | internal/store/notes_list.go:132-195 | together they hold for exactly the notes the filter stands for below the cursor |
| Listing.CursorIsNextStart | internal/store/notes_list.go:240-245 | the cursor sent is the position below which the next page begins, in either order |
| Keyset.PageIsTopOfRemaining | internal/store/notes_list.go:197-246 | a page is the greatest positions below the start, and has a cursor if and only if something remains; what remains is everything not yet returned |
| Keyset.PagesAreTheList | internal/store/notes_list.go:187-246 | on an unchanging set the pages, one after the other, are the whole ordered list, in exactly the number of pages needed |
| Keyset.PagesNeededIsCeiling | internal/store/notes_list.go:202-205 | that number is the larger of 1 and the rounded-up quotient |
| Keyset.DescendingLists | internal/store/notes_list.go:197-200 | the order lists each position once |
| Keyset.DescentIs | internal/store/notes_list.go:197-200 | it falls in the sort value, and in the id where that stays equal |
| Keyset.DescendingIsUnique | internal/store/notes_list.go:197-200 | there is only one such order |
| Walk.WalkSurvivesWriters | internal/store/notes_list.go:60-64 | in recency and in relevance order, with anything at all happening between the pages, each note that keeps matching and keeps its place in the order is received exactly once |
| Walk.ReceivedWhenDue | internal/store/notes_list.go:187-246 | in either order a note is received if and only if at some page that is fetched it matches, lies below the start, and fewer than a page of matches lie in between |
| Keyset.OnPageWhen | internal/store/notes_list.go:197-246 | a position is on a page if and only if it remains and fewer than a page of others lie above it |
| Walk.ReceivedDescends | internal/store/notes_list.go:187-200 | whatever happens, the pairs of time and id, or of rank and id, that are received strictly fall, so none comes twice |
| Walk.NoNoteTwice | internal/store/notes_list.go:60-64 | no note at all is received twice in recency order |
| Walk.RunsLeaveWalkSound | internal/store/notes_list.go:60-64 | over runs of handlers between the pages, in recency order, no note is received twice and the walk ends within as many pages as the notes below its start fill |
| Walk.UntouchedIsReceived | internal/store/notes_list.go:187-195 | in either order a finished walk has received every match that stood still until the walk had passed it, whatever became of it afterwards |
| Walk.WalkFinishes | internal/store/notes_list.go:187-246 | in recency order the walk ends within as many pages as the notes below its start fill, whatever others do |
| Walk.WalkFinishesUnlessNotesFall | internal/store/notes_list.go:187-246 | in either order, a walk between whose pages no match appears below the cursor or falls below it ends within as many pages as the matches below its start fill |
| Walk.PageTakesItsRows | internal/store/notes_list.go:240-245 | in either order a page with a cursor takes exactly its rows from the matches that wait, and leaves some |
| Walk.PageLeavesBehind | internal/store/notes_list.go:240-245 | each page with a cursor lowers the number of notes ahead by at least the limit |
| Walk.RunEvolves | internal/store/sqlcgen/notes.sql.go:157-220 | over any run notes stay, and whatever was written carries a later time |
| Walk.SteadyStateGivesPages | internal/store/notes_list.go:197-246 | on an unchanging database, in recency or relevance order, the replies are the rows of the full filtered list in order |
| Walk.ChangedNoteIsPassedOver | internal/store/notes_list.go:193 | in recency order a note that matches throughout is received if and only if nobody changed it until the walk had passed it |
| Walk.RunsPassOverChangedNote | internal/store/notes_list.go:193 | over runs of handlers between the pages such a note is received exactly once, or, if it was changed before the walk had passed it, not at all |
| Witnesses.ChangedNoteIsMissed | internal/store/notes_list.go:60-64 | a run from the empty tables in which a note matches in every state and a finished walk misses it |
| Walk.FallenRankIsReceivedAgain | internal/store/notes_list.go:191 | over any states visited, a note received on one page is received again if and only if at a later page it matches below that page's start and stays there until passed; its place has then fallen |
| Witnesses.FallingNoteComesTwice | internal/store/notes_list.go:191 | a run from the empty tables in which a note comes twice in relevance order |
| ListQuery.ParseListFilter | internal/notes/list.go:79-153 | filling the filter field by field gives the filter the query stands for, or the first parameter at fault |
| ListQuery.ParsedFilterIsUsable | internal/notes/list.go:119-151 | an accepted filter asks for the caller's own view, 1 to 100 rows, and never for owner=me together with shared_with_me |
| ListQuery.LimitIsClamped | internal/notes/list.go:119-131 | each positive 64-bit limit is accepted and cut to 100; others are refused |
| ListQuery.QueryMeansRows | internal/notes/list.go:79-153 | what each parameter means for the rows: deleted=true lists the caller's deleted notes and nothing else does, shared_with_me=true other people's, owner, team, tags and q what they name; at most 25 rows without a limit and never more than 100 |
| ListQuery.QueryMissesNoRow | internal/notes/list.go:79-153 | a first page without a cursor shows every note that fits all parameters |
| ListQuery.LimitAndOwnerAre | internal/notes/list.go:14-17 | the default of 25, the maximum of 100, and owner=me |
| ListQuery.TagQueryFindsTagged | internal/notes/list.go:89-94 | a note matches a tag query if and only if each non-blank tag asked for cleans to one the writer gave |
| ListQuery.FollowingAsksForTheRest | internal/notes/list.go:71-75 | the same query with the next_cursor that was sent parses to the same filter at that position |
| ListQuery.TextsCarryTheWalk | internal/store/notes_list.go:71-99 | a client that only copies next_cursor texts receives what the walk over positions receives |
| ListQuery.ClientMissesNothing | internal/notes/list.go:42-77 | such a client, in either order, receives each match that keeps its place exactly once while others write |
| ListQuery.ClientSeesNoNoteTwice | internal/notes/list.go:42-77 | in recency order, with handlers running in between, such a client receives no note twice |
| Visibility.ListAgreesWithRead | internal/store/notes_list.go:111-141 | the unfiltered list is exactly the notes `load` lets the caller read, with the same role |
| Visibility.FiltersOnlyNarrow | internal/store/notes_list.go:27-30 | any filter returns a subset of that, or the caller's own deleted notes |
| Visibility.UnknownRoleWouldSplitThem | internal/store/sqlcgen/notes.sql.go:87-91 | that agreement needs stored roles to be viewer or editor: with another one the list would show what a read hides |
| Visibility.ReadsDependOnVisible | internal/notes/handler.go:286-330 | reads, share lists and attachment lists are equal in two states that differ only in notes hidden from the caller |
| Visibility.ListsDependOnVisible | internal/store/notes_list.go:130-141 | so is every page of every list, rows and cursor |
| Disclosure.AnswersDependOnVisible | internal/notes/handler.go:286-330 | the reply to every request of a user that changes something, restoring apart, is equal in two states, at one time and with the same objects, that differ only in notes hidden from that user; a new id or key must be as free in one as in the other |
| Disclosure.RestoreTellsRole | internal/notes/handler.go:264-330 | restoring answers alike in two such states if and only if the user has a role on the note in both or in neither |
| Disclosure.DeletedNoteShowsInRestore | internal/notes/handler.go:295-330 | of a deleted note that is not theirs everyone reads 404, but restoring it answers 403 exactly to those with a role on it |
| Versions.NoLostUpdates | internal/store/sqlcgen/notes.sql.go:157-220 | in every interleaving of statements a note is the fold of its accepted writes, its version counts them, each update was applied to the version it named and never to a deleted note, no two updates of one version succeeded, and deletions and restorations take turns |
| Versions.EachWriteIsLogged | internal/store/sqlcgen/notes.sql.go:209-220 | each statement writes a note at most once, in a state that meets its condition, and raises its version by exactly one |
| Versions.RunKeepsInv | internal/store/sqlcgen/notes.sql.go:157-220 | the invariant behind this holds over every interleaving |
| Versions.ConflictReportsProgress | internal/notes/handler.go:223-240 | a 409 to a client that sent a version somebody had read reports a larger one, whatever falls between the failed update and the re-read |
| Versions.ReportedVersionIsCurrent | internal/notes/handler.go:223-240 | the reported version passes the version check if nobody writes in between |
| Versions.ConflictIsLargerWhen | internal/notes/handler.go:223-240 | whatever others do before the re-read, a 409 is sure to report a larger version if and only if the note had at least the version named when the update ran |
| Versions.NamedVersionIsReported | internal/notes/handler.go:223-240 | otherwise there is a continuation in which exactly the version named is reported |
| Versions.ReadVersionIsSurpassed | internal/notes/handler.go:195-240 | a version somebody had read is one the note has reached, so the first case applies |
| Versions.UnreadVersionMayBeReported | internal/notes/handler.go:223-240 | a run from the start in which a version nobody had read is refused and then reported |
| Uploads.UploadsOnlyMoveOn | internal/store/sqlcgen/attachments.sql.go:198-203 | in every interleaving of completions, deletions and sweeps an attachment goes from pending to ready or away, never back; a ready row never changes, and holds the size its completing request statted |
| Uploads.SweepRemovesItsRows | cmd/sweep/main.go:88-105 | a sweep that nothing disturbs removes exactly the objects and rows it has left, and ends |
| Uploads.CompletionRunsThrough | internal/notes/attachments.go:135-186 | a completion that nothing disturbs makes the row ready exactly if an object of an accepted size is stored, with its size and checksum, and drops one that is too large |
| Uploads.LookingDecides | internal/notes/attachments.go:153-172 | once a completion has looked at the object, it goes on to remove it if and only if it is too large |
| Uploads.BreakingOffLetsGo | internal/notes/attachments.go:135-257 | a request that breaks off between two calls changes nothing and no longer endangers any object |
| Uploads.RunIsOnward | internal/notes/attachments.go:135-257 | the same between any two moments of a run from any sound state |
| Uploads.NextKeepsInv | internal/store/sqlcgen/attachments.sql.go:198-203 | each single call keeps sizes within the limit and ready rows tied to a finished completion |
| Uploads.ReadyObjectIsSafeWhen | internal/notes/attachments.go:135-257 | in every reachable state, the stored object of a ready attachment survives every continuation that keeps the row if and only if no request or sweep under way holds its key |
| Uploads.SweepCanOutrunCompletion | cmd/sweep/main.go:88-105 | a run in which a sweep that listed a pending row deletes the object of an upload completed meanwhile |
| Uploads.SecondCompletionCanLoseObject | internal/notes/attachments.go:135-186 | a run without a sweep: of two completions of one attachment the slower one deletes an oversized object uploaded after the row became ready |
| Uploads.ReadyObjectCanBeLost | internal/notes/attachments.go:135-186 | both runs exist from the empty tables, the second of them without a sweep |
| Cursors.DecodeInvertsEncode | internal/store/notes_list.go:71-99 | a cursor's text decodes to it if and only if its time fits 64 bits of nanoseconds, and otherwise to the time that `UnixNano` wraps to |
| Cursors.DecodeReads | internal/store/notes_list.go:77-99 | a text is a cursor if and only if it decodes to a 64-bit time, a UUID and a rank with one separator between each two |
| Cursors.SplitAtSeparator | internal/store/notes_list.go:82-85 | splitting at the separator gives back the fields that were joined |
| Base64Url.DecodeInvertsEncode | internal/store/notes_list.go:71-81 | unpadded base64url (section 5 of RFC 4648) decodes what it encodes, for every byte string |
| Vectors.AlphabetIsUsed | internal/store/notes_list.go:71-75 | the symbols are those of table 2 in section 5 of RFC 4648 |
| Vectors.KnownBase64Texts | internal/store/notes_list.go:71-75 | examples of section 10 of RFC 4648, without padding |
| Vectors.OnlyBreaksAreSkipped | internal/store/notes_list.go:77-81 | line breaks in an encoded text are skipped |
| Vectors.SymbolIsRead | internal/store/notes_list.go:77-81 | a character is read as a number if and only if it is the symbol of that number |
| Vectors.UuidLayout | internal/store/notes_list.go:71-75 | a printed UUID has lower-case digits, the highest first, grouped 8-4-4-4-12 |
| Vectors.PayloadLayout | internal/store/notes_list.go:71-75 | a cursor spells time, id and rank in this order |
| Vectors.KnownTag | internal/notes/handler.go:332-336 | the entity tag of version 7 is a quoted 7, as the specification has it |
| Vectors.MarkdownReferenceIsFound | internal/notes/attachments.go:20-28 | the documented Markdown form of a reference is found |
| Vectors.WhiteSpaceIs | internal/notes/handler.go:374-396 | what counts as white space |
| Uuids.ParseInvertsPrint | internal/store/notes_list.go:90-93 | the text of a UUID (section 4 of RFC 9562) parses back to it |
| Vectors.UuidForms | internal/store/notes_list.go:90-93 | a UUID is also read after a URN prefix, in braces and without dashes |
| Uuids.ParsedIsInRange | internal/store/notes_list.go:90-93 | no accepted text, in any of the accepted forms, names more than 128 bits |
| Numerals.ParseIntInvertsSigned | internal/store/notes_list.go:86-89 | a printed integer parses back if it fits the width, and is rejected if not |
| Numerals.NumeralIsPadded | internal/notes/handler.go:355-365 | a digit string is leading zeros and the numeral of its value, nothing else |
| ETags.IfMatchInvertsETag | internal/notes/handler.go:334-366 | the header built from a version reads back as that version, quoted, bare or marked weak |
| ETags.IfMatchReadsSpellings | internal/notes/handler.go:343-366 | a header is read as version v if and only if, white space aside, it is one of v's spellings and v is a positive 32-bit integer; `*` and the empty header never are |
| Tags.NormalizeTags | internal/notes/handler.go:374-396 | the loop with its seen set computes the distinct cleaned tags, or the first limit they break |
| Tags.NormalizedTagsAre | internal/notes/handler.go:368-396 | on success: exactly the non-blank trimmed lower-case inputs, each once, in order of first occurrence, at most 32 of at most 64 bytes |
| Tags.NormalizeIsIdempotent | internal/notes/handler.go:374-396 | normalised tags normalise to themselves |
| Tags.PaddingAndCaseAreIgnored | internal/notes/handler.go:368-396 | white space around a tag is cut, each character within is lower-cased, and nothing else changes |
| Answers.TagsAreRefusedWhen | internal/notes/handler.go:374-396 | tags are refused if and only if a cleaned one takes more than 64 bytes or more than 32 distinct ones are left |
| Text.Utf8Spells | internal/notes/handler.go:374-396 | the bytes counted for a character are its UTF-8 form (section 3 of RFC 3629) |
| Text.ByteLengthIsLength | internal/notes/handler.go:374-396 | the length that limits are compared with is that of the encoded text |
| References.ReferencedIDs | internal/notes/attachments.go:316-324 | the scanning loop collects the ids of the leftmost non-overlapping matches |
| References.ReferencedExactly | internal/notes/attachments.go:28-324 | an id is reported if and only if it is named by the first, third, fifth and so on of a row of occurrences that each share a character with the next |
| References.ScanFollowsChain | internal/notes/attachments.go:28 | which occurrences the scan reports depends on the parity of their place in such a row |
| References.NothingIsMissedWhen | internal/notes/attachments.go:28 | the scan reports every occurrence if and only if no two of them share a character |
| References.ScanMissesOnlyOverlapped | internal/notes/attachments.go:28 | from any point, an occurrence is skipped if and only if its first character ends a reported match |
| References.ReferencedIsComplete | internal/notes/attachments.go:20-28 | a reference after anything but a hex digit or dash is always found |
| References.ReferencedIsSound | internal/notes/attachments.go:316-324 | whatever is reported is written in the body |
| References.OverlapIsOneCharacter | internal/notes/attachments.go:28 | two occurrences overlap by the leading `a` at most |
| References.AdjacentReferenceIsMissed | internal/notes/attachments.go:28 | two references run together over a shared `a`: the second one is missed |
| References.ScanInvertsRender | internal/notes/attachments.go:20-28 | scanning a text of Markdown references gives exactly the set of ids in it |
| Service.Server.constructor | migrations/00001_initial_schema.sql:1-115 | the empty tables satisfy the invariant |
| Service.Server.CreateNote | internal/notes/handler.go:86-128 | tables and reply are those of the creation step; the invariant is kept |
| Service.Server.UpdateNote | internal/notes/handler.go:153-221 | tables and reply are those of the update step; the invariant is kept |
| Service.Server.ValidateBodyReferences | internal/notes/attachments.go:282-311 | looking the ids up one by one, in any order, accepts if and only if all are ready attachments of the note |
| Service.Server.DeleteNote | internal/notes/handler.go:242-260 | tables and reply are those of the deletion step; the invariant is kept |
| Service.Server.RestoreNote | internal/notes/handler.go:264-284 | tables and reply are those of the restoration step; the invariant is kept |
| Service.Server.UpsertShare | internal/notes/shares.go:66-128 | tables and reply are those of the share step; the invariant is kept |
| Service.Server.RevokeShare | internal/notes/shares.go:166-198 | tables and reply are those of the revocation step; the invariant is kept |
| Service.Server.CreateTeam | internal/teams/handler.go:68-106 | statements and rollback amount to one all-or-nothing step; the invariant is kept |
| Service.Server.RenameTeam | internal/teams/handler.go:142-168 | tables and reply are those of the renaming step; the invariant is kept |
| Service.Server.DeleteTeam | internal/teams/handler.go:176-205 | deleting grants, then the team, then committing amounts to one all-or-nothing step; the invariant is kept |
| Service.Server.AddMember | internal/teams/handler.go:235-285 | guard, upsert and commit amount to one all-or-nothing step; the invariant is kept |
| Service.Server.RemoveMember | internal/teams/handler.go:287-304 | tables and reply are those of the removal step; the invariant is kept |
| Service.Server.RemoveFromTeam | internal/teams/handler.go:321-343 | guard, deletion and commit amount to one all-or-nothing step |
| Service.Server.Leave | internal/teams/handler.go:307-319 | tables and reply are those of the leaving step; the invariant is kept |
| Service.Server.Register | internal/users/handler.go:77-127 | tables and reply are those of the registration step; the invariant is kept |
| Service.Server.UpdateMe | internal/users/handler.go:209-252 | tables and reply are those of the profile step; the invariant is kept |
| Service.Server.DeleteMe | internal/users/handler.go:301-334 | marking the account and removing its grants amount to one all-or-nothing step; the invariant is kept |
| Service.Server.CreateAttachment | internal/notes/attachments.go:62-126 | tables and reply are those of the reservation step; the invariant is kept |
| Service.Server.CompleteAttachment | internal/notes/attachments.go:135-186 | tables and reply are those of the completion step; the invariant is kept |
| Service.Server.DeleteAttachment | internal/notes/attachments.go:222-257 | row first and object second amount to the deletion step; the invariant is kept |
| Service.Server.ListStaleUploads | internal/store/sqlcgen/attachments.sql.go:154-160 | picking oldest first gives stale pending rows in order, all of them or the oldest up to the limit |
| Files.ListedAreOldest | internal/store/sqlcgen/attachments.sql.go:154-160 | the sweep lists only pending rows from before the cutoff, the oldest first, and leaves one out only if the limit is reached by rows no younger |
| Service.Server.Sweep | cmd/sweep/main.go:68-111 | the loop with its two counters does the sweep step; the counters add up to the rows listed and to the rows gone; the invariant is kept |

## Left out

- HTTP routing, middleware, JSON, metrics, logging, health checks and shutdown: plumbing over libraries.
- Tokens, passwords, login, `changePassword` and the lookup by email: foreign cryptography and plain reads.
- Field checks of accounts (email form, password length, display name): easy members; `Register` and `UpdateMe` begin after them.
- Malformed ids in a URL, which are refused before the handler looks anything up.
- `sanitizeFilename` and the matching of MIME patterns: a file name arrives sanitised, and accepted types are an unknown predicate of the configuration.
- Length checks of the `title`, `name` and `filename` columns: the handlers refuse such values first.
- The internals of full-text search and ranking, and the text of the SQL: what a query selects and how it is ordered is modelled, not its string.
- Presigned URLs, their contents and expiry: a client may write to any key at any time.
- The order of the rows of share, member, team and attachment lists; team and member lists themselves are plain reads.
- Interleavings inside a request for the last-admin guard, the check of body references, the check of a principal and the list of the sweep: those properties are stated request by request. For the objects of ready attachments `Uploads.ReadyObjectIsSafeWhen` says what remains true otherwise.
- The role that `conflict` reads again with the note may differ from the one loaded before if requests interleave; within one step it cannot.
- That a ready attachment's size still matches its object after a later upload to the same key: it need not.
- That a team's admin is a live account: deleting an account keeps its memberships.
- The dry run of the sweep, its time limit, configuration, seed, migration and deployment scripts, the OpenAPI document and the `nocrud` runner.
- References.ScanInvertsRender: alternative texts hold no colon, because one that spells a reference is itself found; References.ReferencedExactly covers every text.
- Tags.NormalizeIsIdempotent: for rune mappings as `CaseMap` describes them, because the mapping itself belongs to Go's Unicode tables.
- Service.Server.Sweep: the cutoff is a parameter, since the clock of the sweep is not that of the database.
