/** What each request is answered with: the status it gets in which situation, in terms of the caller's
    role and of what is stored, and what a read sends. A refused request changes nothing but the time. */
module Answers {
  import opened Wrappers
  import opened Uuids
  import opened Schema
  import opened Authz
  import opened Access
  import opened Replies
  import opened Machine
  import opened Retries
  import opened Grants
  import Sql
  import Text
  import Tags
  import ETags
  import References
  import Notes
  import Shares
  import Teams
  import Accounts
  import Attachments

  function StatusOf(r: Reply): nat {
    match r
    case Done(status) => status
    case Refused(status) => status
    case Sent(status, _) => status
    case File(status, _, _) => status
    case Stale(_, _) => 409
  }

  /** The decision table: viewers read, editors write, and the rest is the owner's. */
  lemma WhoMayDoWhat(role: Role)
    ensures Can(role, Read) <==> role >= 1
    ensures Can(role, ListShares) <==> role >= 1
    ensures Can(role, DownloadAttachment) <==> role >= 1
    ensures Can(role, Action.Update) <==> role >= 2
    ensures Can(role, AddAttachment) <==> role >= 2
    ensures Can(role, RemoveAttachment) <==> role >= 2
    ensures Can(role, Action.Delete) <==> role >= 3
    ensures Can(role, Action.Restore) <==> role >= 3
    ensures Can(role, Action.Share) <==> role >= 3
    ensures Can(role, Action.RevokeShare) <==> role >= 3
  {
  }

  /** Only the owner holds the third rank; a grant gives the first or the second. */
  lemma RolesAre(db: Db, user: Uuid, id: Uuid)
    ensures RoleOn(db, user, id) == 3 <==> id in db.notes && db.notes[id].owner == user
    ensures RoleOn(db, user, id) >= 2 <==>
            && id in db.notes
            && (db.notes[id].owner == user || exists k :: Matches(db, user, id, k) && db.shares[k].role == "editor")
    ensures RoleOn(db, user, id) >= 1 <==>
            && id in db.notes
            && (db.notes[id].owner == user
                || exists k :: Matches(db, user, id, k) && db.shares[k].role in {"viewer", "editor"})
    ensures RoleOn(db, user, id) <= 3
  {
    if id in db.notes && db.notes[id].owner != user {
      RoleIsStrongestGrant(db, user, id, 1);
      RoleIsStrongestGrant(db, user, id, 2);
      RoleIsStrongestGrant(db, user, id, 3);
      RoleIsStrongestGrant(db, user, id, 4);
    }
  }

  /** What a request about a note is refused with before anything else, if at all. */
  function Barred(db: Db, user: Uuid, id: Uuid, least: Role): Option<nat> {
    if RoleOn(db, user, id) == 0 || db.notes[id].deletedAt.Some? then Some(404)
    else if RoleOn(db, user, id) < least then Some(403)
    else None
  }

  /** `load` bars from a note exactly those whose role is too low, and everyone if it is deleted. */
  lemma LoadBars(db: Db, user: Uuid, id: Uuid, action: Action, least: Role)
    requires action != Action.Restore && (forall r: Role :: Can(r, action) <==> r >= least) && least >= 1
    ensures match Barred(db, user, id, least)
            case Some(status) => Load(db, user, id, action) == Err(status)
            case None => Load(db, user, id, action) == Ok(Loaded(db.notes[id], RoleOn(db, user, id)))
    ensures Barred(Tick(db), user, id, least) == Barred(db, user, id, least)
    ensures Load(Tick(db), user, id, action) == Load(db, user, id, action)
  {
    LoadDecides(db, user, id, action);
    TickKeepsRoles(db, user, id);
    TickKeepsLoad(db, user, id, action);
    assert Can(least, action);
  }

  lemma GetIsAnswered(db: Db, caller: Uuid, id: Uuid)
    ensures Notes.Get(db, caller, id) ==
            match Barred(db, caller, id, 1)
            case Some(status) => Refused(status)
            case None => Sent(200, NoteView(id, db.notes[id], RoleOn(db, caller, id)))
  {
    WhoMayDoWhat(1);
    LoadBars(db, caller, id, Read, 1);
  }

  lemma CreationIsAnswered(cfg: Config, db: Db, caller: Uuid, id: Uuid, title: string, body: string, tags: seq<string>,
                           faults: Faults)
    ensures var r := Notes.Create(cfg, db, caller, id, title, body, tags, faults);
            var t := Text.TrimSpace(title);
            && StatusOf(r.reply) == (
                 if t == "" || Text.ByteLength(t) > 512 || Tags.Normalized(tags, cfg.lower).Err?
                    || References.Referenced(body) != {} then 400
                 else if 0 in faults || id in db.notes || caller !in db.users then 500
                 else 201)
            && (StatusOf(r.reply) >= 400 ==> r.db == Tick(db))
  {
  }

  /** Which `If-Match` headers are answered with 428. */
  lemma PreconditionIsRequiredWhen(header: string)
    ensures ETags.IfMatchVersion(header) == Err(ETags.PreconditionRequired) <==> Text.TrimSpace(header) in {"", "*"}
  {
  }

  lemma UpdateIsAnswered(cfg: Config, db: Db, caller: Uuid, id: Uuid, ifMatch: string, patch: Sql.Patch, faults: Faults)
    ensures var r := Notes.Update(cfg, db, caller, id, ifMatch, patch, faults);
            var bar, named := Barred(db, caller, id, 2), ETags.IfMatchVersion(ifMatch);
            && StatusOf(r.reply) == (
                 if bar.Some? then bar.value
                 else if Text.TrimSpace(ifMatch) in {"", "*"} then 428
                 else if named.Err? || !Acceptable(cfg, db, id, patch) then 400
                 else if 0 in faults then 500
                 else if named.value != db.notes[id].version then 409
                 else if named.value >= 2147483647 then 500
                 else 200)
            && (StatusOf(r.reply) >= 400 ==> r.db == Tick(db))
            && (StatusOf(r.reply) == 409 ==>
                  r.reply == Reply.Stale(named.value, NoteView(id, db.notes[id], RoleOn(db, caller, id))))
  {
    WhoMayDoWhat(2);
    LoadBars(db, caller, id, Action.Update, 2);
    PreconditionIsRequiredWhen(ifMatch);
    RefusedBeforeWrite(cfg, db, caller, id, ifMatch, patch);
    ChecksComeFirst(cfg, db, caller, id, ifMatch, patch, faults);
    TickKeepsRoles(db, caller, id);
  }

  lemma RefusedBeforeWrite(cfg: Config, db: Db, caller: Uuid, id: Uuid, ifMatch: string, patch: Sql.Patch)
    ensures var a := Notes.Admit(cfg, Tick(db), caller, id, ifMatch, patch);
            var bar := Barred(db, caller, id, 2);
            if bar.Some? then a == Err(bar.value)
            else if Text.TrimSpace(ifMatch) in {"", "*"} then a == Err(428)
            else if ETags.IfMatchVersion(ifMatch).Err? || !Acceptable(cfg, db, id, patch) then a == Err(400)
            else a.Ok? && a.value.expected == ETags.IfMatchVersion(ifMatch).value
  {
    WhoMayDoWhat(2);
    LoadBars(db, caller, id, Action.Update, 2);
    PreconditionIsRequiredWhen(ifMatch);
  }

  lemma DeletionIsAnswered(db: Db, caller: Uuid, id: Uuid, faults: Faults)
    ensures var r := Notes.Delete(db, caller, id, faults);
            var bar := Barred(db, caller, id, 3);
            && StatusOf(r.reply) == (
                 if bar.Some? then bar.value
                 else if 0 in faults || db.notes[id].version >= 2147483647 then 500
                 else 204)
            && (StatusOf(r.reply) >= 400 ==> r.db == Tick(db))
            && (StatusOf(r.reply) == 204 ==>
                  var n, t := db.notes[id], db.now + 1;
                  r.db == Tick(db).(notes :=
                    db.notes[id := n.(deletedAt := Some(t), version := n.version + 1, updatedAt := t)]))
  {
    WhoMayDoWhat(3);
    LoadBars(db, caller, id, Action.Delete, 3);
  }

  lemma RestorationIsAnswered(db: Db, caller: Uuid, id: Uuid, faults: Faults)
    ensures var r := Notes.Restore(db, caller, id, faults);
            StatusOf(r.reply) == (
              if RoleOn(db, caller, id) == 0 then 404
              else if RoleOn(db, caller, id) < 3 then 403
              else if db.notes[id].deletedAt.None? then 409
              else if 0 in faults || db.notes[id].version >= 2147483647 then 500
              else 200)
  {
    WhoMayDoWhat(RoleOn(db, caller, id));
    LoadDecides(Tick(db), caller, id, Action.Restore);
    TickKeepsRoles(db, caller, id);
  }

  lemma ShareIsAnswered(db: Db, caller: Uuid, note: Uuid, kind: string, id: Uuid, role: string, faults: Faults)
    ensures var r := Shares.Upsert(db, caller, note, kind, id, role, faults);
            var bar := Barred(db, caller, note, 3);
            && StatusOf(r.reply) == (
                 if bar.Some? then bar.value
                 else if role !in {"viewer", "editor"} || kind !in {"user", "team"} || id == 0 then 400
                 else if kind == "user" && id == caller then 400
                 else if kind == "user" && !(id in db.users && db.users[id].deletedAt == None) then 404
                 else if kind == "team" && !(id in db.teams && Membership(id, caller) in db.members) then 404
                 else if 0 in faults then 500
                 else 204)
            && (StatusOf(r.reply) >= 400 ==> r.db == Tick(db))
  {
    WhoMayDoWhat(3);
    LoadBars(db, caller, note, Action.Share, 3);
  }

  lemma RevocationIsAnswered(db: Db, caller: Uuid, note: Uuid, kind: string, id: Uuid, faults: Faults)
    ensures var r := Shares.Revoke(db, caller, note, kind, id, faults);
            var bar := Barred(db, caller, note, 3);
            var p := if kind == "user" then UserPrincipal(id) else TeamPrincipal(id);
            && StatusOf(r.reply) == (
                 if bar.Some? then bar.value
                 else if kind !in {"user", "team"} then 404
                 else if 0 in faults then 500
                 else if GrantKey(note, p) !in db.shares then 404
                 else 204)
            && (StatusOf(r.reply) >= 400 ==> r.db == Tick(db))
  {
    WhoMayDoWhat(3);
    LoadBars(db, caller, note, Action.RevokeShare, 3);
  }

  /** A share list has one entry for each grant on the note: its role and date, and the name of whom it
      is for. Every user who may read the note may see it. */
  lemma ShareListIs(db: Db, caller: Uuid, note: Uuid)
    ensures match Barred(db, caller, note, 1)
            case Some(status) => Shares.List(db, caller, note) == Err(status)
            case None =>
              && Shares.List(db, caller, note).Ok?
              && forall v :: v in Shares.List(db, caller, note).value <==>
                   var k := GrantKey(note, v.principal);
                   && k in db.shares && v.role == db.shares[k].role && v.createdAt == db.shares[k].createdAt
                   && match v.principal
                      case UserPrincipal(u) =>
                        if u in db.users then
                          v.name == Some(db.users[u].displayName) && v.email == Some(db.users[u].email)
                        else v.name == None && v.email == None
                      case TeamPrincipal(t) =>
                        v.email == None && v.name == if t in db.teams then Some(db.teams[t].name) else None
  {
    WhoMayDoWhat(1);
    LoadBars(db, caller, note, ListShares, 1);
    if Shares.List(db, caller, note).Ok? {
      forall v
        ensures v in Shares.List(db, caller, note).value <==>
                GrantKey(note, v.principal) in db.shares && v == Shares.ViewOf(db, GrantKey(note, v.principal))
      {
        ShareIsListed(db, caller, note, v);
      }
    }
  }

  lemma ShareIsListed(db: Db, caller: Uuid, note: Uuid, v: Shares.ShareView)
    requires Shares.List(db, caller, note).Ok?
    ensures v in Shares.List(db, caller, note).value <==>
            GrantKey(note, v.principal) in db.shares && v == Shares.ViewOf(db, GrantKey(note, v.principal))
  {
    var k := GrantKey(note, v.principal);
    if v in Shares.List(db, caller, note).value {
      var j :| j in db.shares && j.note == note && v == Shares.ViewOf(db, j);
      assert j == GrantKey(note, j.principal);
    }
  }

  /** An attachment list has the ready attachments of the note, and no others. */
  lemma FileListIs(db: Db, caller: Uuid, note: Uuid)
    ensures match Barred(db, caller, note, 1)
            case Some(status) => Attachments.List(db, caller, note) == Err(status)
            case None =>
              && Attachments.List(db, caller, note).Ok?
              && var files := Attachments.List(db, caller, note).value;
                 && (forall a :: a in files <==>
                       a in db.attachments && db.attachments[a].note == note && db.attachments[a].status == Ready)
                 && (forall a | a in files :: files[a] == db.attachments[a])
  {
    WhoMayDoWhat(1);
    LoadBars(db, caller, note, DownloadAttachment, 1);
  }

  lemma ReservationIsAnswered(cfg: Config, db: Db, caller: Uuid, note: Uuid, id: Uuid, key: string, filename: string,
                              mimeType: string, size: int, faults: Faults)
    ensures var r := Attachments.Reserve(cfg, db, caller, note, id, key, filename, mimeType, size, faults);
            var bar := Barred(db, caller, note, 2);
            StatusOf(r.reply) == (
              if bar.Some? then bar.value
              else if filename == "" || size <= 0 || size > cfg.maxBytes || !cfg.mimeAllowed(mimeType) then 400
              else if 0 in faults || 1 in faults || id in db.attachments || caller !in db.users
                      || (exists a :: a in db.attachments && db.attachments[a].objectKey == key) then 500
              else 201)
  {
    WhoMayDoWhat(2);
    LoadBars(db, caller, note, AddAttachment, 2);
  }

  lemma CompletionIsAnswered(cfg: Config, db: Db, caller: Uuid, note: Uuid, id: Uuid, faults: Faults)
    ensures var r := Attachments.Complete(cfg, db, caller, note, id, faults);
            var bar := Barred(db, caller, note, 2);
            && StatusOf(r.reply) == (
                 if bar.Some? then bar.value
                 else if id !in db.attachments || db.attachments[id].note != note then 404
                 else if db.attachments[id].status == Ready then 200
                 else if 0 in faults then 500
                 else
                   var key := db.attachments[id].objectKey;
                   if key !in db.objects then 409
                   else if db.objects[key].size > cfg.maxBytes then 413
                   else if 1 in faults || db.objects[key].size == 0 then 500
                   else 200)
            && (StatusOf(r.reply) == 413 ==>
                  r.db == Tick(db).(objects :=
                    if 1 in faults then db.objects else db.objects - {db.attachments[id].objectKey}))
            && (StatusOf(r.reply) in {403, 404, 409, 500} ==> r.db == Tick(db))
  {
    WhoMayDoWhat(2);
    LoadBars(db, caller, note, AddAttachment, 2);
  }

  lemma RemovalIsAnswered(db: Db, caller: Uuid, note: Uuid, id: Uuid, faults: Faults)
    ensures var r := Attachments.Remove(db, caller, note, id, faults);
            var bar := Barred(db, caller, note, 2);
            StatusOf(r.reply) == (
              if bar.Some? then bar.value
              else if id !in db.attachments || db.attachments[id].note != note then 404
              else if id in References.Referenced(db.notes[note].body) then 409
              else if 0 in faults then 500
              else 204)
  {
    WhoMayDoWhat(2);
    LoadBars(db, caller, note, RemoveAttachment, 2);
  }

  /** What a request about a team is refused with first: who is no member is not told that it exists. */
  function TeamBarred(db: Db, user: Uuid, team: Uuid): Option<nat> {
    if Membership(team, user) !in db.members then Some(404)
    else if db.members[Membership(team, user)] != Admin then Some(403)
    else None
  }

  lemma TeamCreationIsAnswered(db: Db, caller: Uuid, id: Uuid, name: string, faults: Faults)
    ensures var r := Teams.Create(db, caller, id, name, faults);
            var n := Text.TrimSpace(name);
            && StatusOf(r.reply) == (
                 if n == "" || Text.ByteLength(n) > 128 then 400
                 else if 0 in faults || 1 in faults || 2 in faults || id in db.teams || caller !in db.users then 500
                 else 201)
            && r.db == (
                 if StatusOf(r.reply) != 201 then Tick(db)
                 else
                   Tick(db).(teams := db.teams[id := Team(n)], members := db.members[Membership(id, caller) := Admin]))
  {
    assert AnyFails(faults, 3) <==> 0 in faults || 1 in faults || 2 in faults;
  }

  lemma RenamingIsAnswered(db: Db, caller: Uuid, team: Uuid, name: string, faults: Faults)
    ensures var r := Teams.Rename(db, caller, team, name, faults);
            var bar, n := TeamBarred(db, caller, team), Text.TrimSpace(name);
            && StatusOf(r.reply) == (
                 if bar.Some? then bar.value
                 else if n == "" || Text.ByteLength(n) > 128 then 400
                 else if 0 in faults || team !in db.teams then 500
                 else 200)
            && r.db == (if StatusOf(r.reply) != 200 then Tick(db) else Tick(db).(teams := db.teams[team := Team(n)]))
  {
  }

  lemma TeamDeletionIsAnswered(db: Db, caller: Uuid, team: Uuid, faults: Faults)
    ensures var r := Teams.Delete(db, caller, team, faults);
            var bar := TeamBarred(db, caller, team);
            && StatusOf(r.reply) == (
                 if bar.Some? then bar.value
                 else if 0 in faults || 1 in faults then 500
                 else if team !in db.teams then 404
                 else if 2 in faults then 500
                 else 204)
            && (StatusOf(r.reply) >= 400 ==> r.db == Tick(db))
  {
    assert AnyFails(faults, 2) <==> 0 in faults || 1 in faults;
  }

  lemma MemberAdditionIsAnswered(db: Db, caller: Uuid, team: Uuid, user: Uuid, role: string, faults: Faults)
    ensures var r := Teams.AddMember(db, caller, team, user, role, faults);
            var bar := TeamBarred(db, caller, team);
            && StatusOf(r.reply) == (
                 if bar.Some? then bar.value
                 else if role !in {"", "member", "admin"} || user == 0 then 400
                 else if role != "admin" && OnlyAdmin(db, team, user) then 409
                 else if 0 in faults then 500
                 else if team !in db.teams || user !in db.users then 404
                 else if 1 in faults then 500
                 else 204)
            && (StatusOf(r.reply) >= 400 ==> r.db == Tick(db))
  {
    GuardFindsOnlyAdmin(Tick(db), team, user);
    assert OnlyAdmin(Tick(db), team, user) <==> OnlyAdmin(db, team, user);
  }

  lemma MemberRemovalIsAnswered(db: Db, caller: Uuid, team: Uuid, user: Uuid, faults: Faults)
    ensures var bar := TeamBarred(db, caller, team);
            StatusOf(Teams.RemoveMember(db, caller, team, user, faults).reply) == (
              if bar.Some? then bar.value
              else if OnlyAdmin(db, team, user) then 409
              else if 0 in faults then 500
              else if Membership(team, user) !in db.members then 404
              else if 1 in faults then 500
              else 204)
  {
    GuardFindsOnlyAdmin(Tick(db), team, user);
    assert OnlyAdmin(Tick(db), team, user) <==> OnlyAdmin(db, team, user);
  }

  lemma LeavingIsAnswered(db: Db, caller: Uuid, team: Uuid, faults: Faults)
    ensures StatusOf(Teams.Leave(db, caller, team, faults).reply) == (
              if Membership(team, caller) !in db.members then 404
              else if OnlyAdmin(db, team, caller) then 409
              else if 0 in faults || 1 in faults then 500
              else 204)
  {
    GuardFindsOnlyAdmin(Tick(db), team, caller);
    assert OnlyAdmin(Tick(db), team, caller) <==> OnlyAdmin(db, team, caller);
  }

  /** Somebody else's live account has the address. */
  predicate AddressInUse(db: Db, email: string, except: Uuid) {
    exists u :: u in db.users && u != except && db.users[u].deletedAt == None && db.users[u].email == email
  }

  lemma RegistrationIsAnswered(db: Db, id: Uuid, email: string, name: string, faults: Faults)
    ensures var r := Accounts.Register(db, id, email, name, faults);
            && StatusOf(r.reply) == (
                 if 0 in faults || id in db.users then 500 else if AddressInUse(db, email, id) then 409 else 200)
            && r.db == (
                 if StatusOf(r.reply) != 200 then Tick(db)
                 else Tick(db).(users := db.users[id := User(email, name, None)]))
  {
  }

  /** A profile keeps what the request does not carry. */
  lemma ProfileUpdateIsAnswered(cfg: Config, db: Db, caller: Uuid, email: Option<string>, name: Option<string>,
                                faults: Faults)
    ensures var r := Answer(cfg, db, Step.UpdateMe(caller, email, name), faults);
            && StatusOf(r.reply) == (
                 if 0 in faults then 500
                 else if caller !in db.users || db.users[caller].deletedAt != None then 401
                 else if AddressInUse(db, if email.Some? then email.value else db.users[caller].email, caller) then 409
                 else 200)
            && (StatusOf(r.reply) != 200 ==> r.db == Tick(db))
            && (StatusOf(r.reply) == 200 ==>
                  && caller in r.db.users && r.db == Tick(db).(users := db.users[caller := r.db.users[caller]])
                  && var before, after := db.users[caller], r.db.users[caller];
                     && after.email == (if email.Some? then email.value else before.email)
                     && after.displayName == (if name.Some? then name.value else before.displayName)
                     && after.deletedAt == before.deletedAt)
  {
  }

  lemma AccountDeletionIsAnswered(db: Db, caller: Uuid, faults: Faults)
    ensures var r := Accounts.DeleteMe(db, caller, faults);
            && StatusOf(r.reply) == (
                 if 0 in faults || 1 in faults || 2 in faults then 401
                 else if caller !in db.users || db.users[caller].deletedAt != None then 401
                 else 204)
            && (StatusOf(r.reply) == 204 ==>
                  r.db.users == db.users[caller := db.users[caller].(deletedAt := Some(db.now + 1))])
  {
    assert AnyFails(faults, 3) <==> 0 in faults || 1 in faults || 2 in faults;
  }

  /** Some tag, once cleaned, takes more than 64 bytes. */
  predicate SomeTagIsLong(tags: seq<string>, lower: char -> char) {
    exists i :: 0 <= i < |tags| && Tags.Clean(tags[i], lower) != "" && Text.ByteLength(Tags.Clean(tags[i], lower)) > 64
  }

  lemma LongTagsAre(tags: seq<string>, lower: char -> char)
    ensures SomeTagIsLong(tags, lower) <==> !Tags.AllShort(Tags.Kept(tags, lower))
  {
    Tags.KeptAreClean(tags, lower);
    var kept := Tags.Kept(tags, lower);
    if t :| t in kept && Text.ByteLength(t) > 64 {
      var i :| 0 <= i < |tags| && t == Tags.Clean(tags[i], lower);
    }
    if i :| 0 <= i < |tags| && Tags.Clean(tags[i], lower) != "" && Text.ByteLength(Tags.Clean(tags[i], lower)) > 64 {
      assert Tags.Clean(tags[i], lower) in kept;
    }
  }

  lemma DistinctCountIs(ts: seq<string>)
    ensures |Tags.Distinct(ts)| == |set t | t in ts|
  {
    Tags.DistinctKeepsFirsts(ts);
    DistinctCounts(Tags.Distinct(ts));
    assert (set t | t in ts) == set t | t in Tags.Distinct(ts);
  }

  /** Tags are refused when one is longer than 64 bytes, or when more than 32 distinct ones are left. */
  lemma TagsAreRefusedWhen(tags: seq<string>, lower: char -> char)
    ensures Tags.Normalized(tags, lower).Err? <==>
            SomeTagIsLong(tags, lower) || |set t | t in Tags.Kept(tags, lower)| > 32
  {
    LongTagsAre(tags, lower);
    DistinctCountIs(Tags.Kept(tags, lower));
  }

  lemma {:induction false} DistinctCounts(ts: seq<string>)
    requires Tags.NoDuplicates(ts)
    ensures |set t | t in ts| == |ts|
  {
    if ts != [] {
      var front, last := ts[..|ts| - 1], ts[|ts| - 1];
      DistinctCounts(front);
      assert ts == front + [last];
      assert (set t | t in ts) == (set t | t in front) + {last};
      assert last !in front;
    }
  }

  /** What is answered when the conditional write met no row, in whatever state the note is read again. */
  lemma ConflictIsAnswered(db: Db, caller: Uuid, id: Uuid, expected: int)
    ensures Notes.ConflictReply(db, caller, id, expected) ==
            if id !in db.notes || db.notes[id].deletedAt != None then Refused(404)
            else Reply.Stale(expected, NoteView(id, db.notes[id], RoleOn(db, caller, id)))
  {
  }
}
