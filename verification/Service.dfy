/** The service in its own form: an object that holds the tables, and handlers that update them one
    statement at a time. Each handler is proved to do what the functions about it say, and to keep
    the invariant of the tables. */
module Service {
  import opened Wrappers
  import opened Uuids
  import opened Schema
  import opened Authz
  import opened Access
  import opened Replies
  import opened Machine
  import Sql
  import Text
  import Tags
  import ETags
  import References
  import Notes
  import Shares
  import Teams
  import Accounts
  import Attachments
  import Integrity

  /** What the handlers below rely on: sound tables stay sound. */
  lemma StaysSound(cfg: Config, db: Db, step: Step, faults: Faults)
    requires !step.Sweep?
    ensures Integrity.Inv(cfg, db) ==> Integrity.Inv(cfg, Answer(cfg, db, step, faults).db)
  {
    if Integrity.Inv(cfg, db) {
      Integrity.EventKeepsInv(cfg, db, Event(step, faults));
    }
  }

  lemma SweepStaysSound(cfg: Config, db: Db, cutoff: int, limit: nat, rows: seq<Uuid>, faults: Faults)
    requires Sql.StaleListing(db.attachments, cutoff, limit, rows) && Integrity.Inv(cfg, db)
    ensures Integrity.Inv(cfg, Attachments.Sweep(db, rows, faults))
  {
    var e := Event(Step.Sweep(cutoff, limit, rows), faults);
    assert Next(cfg, db, e) == Attachments.Sweep(db, rows, faults);
    Integrity.EventKeepsInv(cfg, db, e);
  }

  class Server {
    const cfg: Config
    var users: map<Uuid, User>
    var teams: map<Uuid, Team>
    var members: map<Membership, MemberRole>
    var notes: map<Uuid, Note>
    var shares: map<GrantKey, Grant>
    var attachments: map<Uuid, Attachment>
    var objects: map<string, ObjectInfo>
    var now: int

    function State(): Db
      reads this
    {
      Db(users, teams, members, notes, shares, attachments, objects, now)
    }

    ghost predicate Sound()
      reads this
    {
      Integrity.Inv(cfg, State())
    }

    constructor (cfg: Config)
      ensures this.cfg == cfg && State() == EMPTY && Sound()
    {
      this.cfg := cfg;
      users, teams, members, notes, shares := map[], map[], map[], map[], map[];
      attachments, objects, now := map[], map[], 0;
    }

    /** `Tx` gives back every table when one of its statements or its commit fails. */
    method Rollback(saved: Db)
      modifies this
      ensures State() == saved
    {
      users, teams, members, notes := saved.users, saved.teams, saved.members, saved.notes;
      shares, attachments, objects, now := saved.shares, saved.attachments, saved.objects, saved.now;
    }

    method CreateNote(caller: Uuid, id: Uuid, title: string, body: string, tags: seq<string>, faults: Faults)
      returns (reply: Reply)
      modifies this
      ensures Response(State(), reply)
              == Answer(cfg, old(State()), Step.CreateNote(caller, id, title, body, tags), faults)
      ensures old(Sound()) ==> Sound()
    {
      reply := InsertNote(caller, id, title, body, tags, faults);
      StaysSound(cfg, old(State()), Step.CreateNote(caller, id, title, body, tags), faults);
    }

    method InsertNote(caller: Uuid, id: Uuid, title: string, body: string, tags: seq<string>, faults: Faults)
      returns (reply: Reply)
      modifies this
      ensures Response(State(), reply) == Notes.Create(cfg, old(State()), caller, id, title, body, tags, faults)
    {
      now := now + 1;
      var trimmed := Text.TrimSpace(title);
      var normalized := Tags.NormalizeTags(tags, cfg.lower);
      if normalized.Err? || !Notes.ValidTitle(trimmed) {
        return Refused(400);
      }
      var refs := References.ReferencedIDs(body);
      if refs != {} {
        return Refused(400);
      }
      if 0 in faults || id in notes || caller !in users {
        return Refused(500);
      }
      var n := Sql.NewNote(caller, trimmed, body, normalized.value, now);
      notes := notes[id := n];
      return Sent(201, NoteView(id, n, ROLE_OWNER));
    }

    /** `validateBodyReferences`: looks every referenced id up, and collects the bad ones. */
    method ValidateBodyReferences(note: Uuid, body: string) returns (ok: bool)
      ensures ok == Notes.ReferencesUsable(attachments, note, body)
    {
      var refs := References.ReferencedIDs(body);
      var left, bad := refs, {};
      while left != {}
        invariant left <= refs
        invariant bad <= refs
        invariant forall id | id in refs ::
            id in bad <==>
              id !in left && !(id in attachments && attachments[id].note == note && attachments[id].status.Ready?)
        decreases |left|
      {
        var id :| id in left;
        if id !in attachments || attachments[id].note != note || !attachments[id].status.Ready? {
          bad := bad + {id};
        }
        left := left - {id};
      }
      ok := bad == {};
    }

    method UpdateNote(caller: Uuid, id: Uuid, ifMatch: string, patch: Sql.Patch, faults: Faults) returns (reply: Reply)
      modifies this
      ensures Response(State(), reply) == Answer(cfg, old(State()), Step.UpdateNote(caller, id, ifMatch, patch), faults)
      ensures old(Sound()) ==> Sound()
    {
      reply := PatchNote(caller, id, ifMatch, patch, faults);
      StaysSound(cfg, old(State()), Step.UpdateNote(caller, id, ifMatch, patch), faults);
    }

    method PatchNote(caller: Uuid, id: Uuid, ifMatch: string, patch: Sql.Patch, faults: Faults) returns (reply: Reply)
      modifies this
      ensures Response(State(), reply) == Notes.Update(cfg, old(State()), caller, id, ifMatch, patch, faults)
    {
      now := now + 1;
      var admitted := AdmitUpdate(caller, id, ifMatch, patch);
      if admitted.Err? {
        return Refused(admitted.error);
      }
      if 0 in faults {
        return Refused(500);
      }
      reply := WritePatch(caller, id, admitted.value.expected, admitted.value.patch, admitted.value.role);
    }

    /** The checks, in their order. */
    method AdmitUpdate(caller: Uuid, id: Uuid, ifMatch: string, patch: Sql.Patch)
      returns (r: Result<Notes.Admitted, nat>)
      ensures r == Notes.Admit(cfg, State(), caller, id, ifMatch, patch)
      ensures r.Ok? ==> id in notes
    {
      var loaded := Load(State(), caller, id, Action.Update);
      if loaded.Err? {
        return Err(loaded.error);
      }
      var expected := ETags.IfMatchVersion(ifMatch);
      if expected.Err? {
        return Err(if expected.error.PreconditionRequired? then 428 else 400);
      }
      var checked := CheckPatch(id, patch);
      if checked.Err? {
        return Err(checked.error);
      }
      return Ok(Notes.Admitted(expected.value, checked.value, loaded.value.role));
    }

    /** The patch as it is to be written, if its fields and its references are acceptable. */
    method CheckPatch(id: Uuid, patch: Sql.Patch) returns (r: Result<Sql.Patch, nat>)
      ensures r == match Notes.CheckedPatch(patch, cfg.lower)
                   case Err(status) => Err(status)
                   case Ok(p) =>
                     if p.body.Some? && !Notes.ReferencesUsable(attachments, id, p.body.value) then Err(400) else Ok(p)
    {
      r := Notes.CheckedPatch(patch, cfg.lower);
      if r.Ok? && r.value.body.Some? {
        var usable := ValidateBodyReferences(id, r.value.body.value);
        if !usable {
          r := Err(400);
        }
      }
    }

    /** The conditional write, and what is answered when it met no row. */
    method WritePatch(caller: Uuid, id: Uuid, expected: int, patch: Sql.Patch, role: Role) returns (reply: Reply)
      requires id in notes
      modifies this
      ensures var w := Sql.UpdateNote(old(notes), id, expected, patch, now);
              State() == old(State()).(notes := Sql.Written(old(notes), id, w))
      ensures reply == match Sql.UpdateNote(old(notes), id, expected, patch, now)
                       case Wrote(n) => Sent(200, NoteView(id, n, role))
                       case Overflow => Refused(500)
                       case NoRow => Notes.ConflictReply(old(State()), caller, id, expected)
    {
      match Sql.UpdateNote(notes, id, expected, patch, now) {
        case Wrote(n) =>
          notes := notes[id := n];
          return Sent(200, NoteView(id, n, role));
        case Overflow =>
          return Refused(500);
        case NoRow =>
          return Notes.ConflictReply(State(), caller, id, expected);
      }
    }

    method DeleteNote(caller: Uuid, id: Uuid, faults: Faults) returns (reply: Reply)
      modifies this
      ensures Response(State(), reply) == Answer(cfg, old(State()), Step.DeleteNote(caller, id), faults)
      ensures old(Sound()) ==> Sound()
    {
      reply := MarkDeleted(caller, id, faults);
      StaysSound(cfg, old(State()), Step.DeleteNote(caller, id), faults);
    }

    method MarkDeleted(caller: Uuid, id: Uuid, faults: Faults) returns (reply: Reply)
      modifies this
      ensures Response(State(), reply) == Notes.Delete(old(State()), caller, id, faults)
    {
      now := now + 1;
      var loaded := Load(State(), caller, id, Action.Delete);
      if loaded.Err? {
        return Refused(loaded.error);
      }
      if 0 in faults {
        return Refused(500);
      }
      var w := Sql.SoftDeleteNote(notes, id, now);
      notes := Sql.Written(notes, id, w);
      return if w.Overflow? then Refused(500) else Done(204);
    }

    method RestoreNote(caller: Uuid, id: Uuid, faults: Faults) returns (reply: Reply)
      modifies this
      ensures Response(State(), reply) == Answer(cfg, old(State()), Step.RestoreNote(caller, id), faults)
      ensures old(Sound()) ==> Sound()
    {
      reply := Undelete(caller, id, faults);
      StaysSound(cfg, old(State()), Step.RestoreNote(caller, id), faults);
    }

    method Undelete(caller: Uuid, id: Uuid, faults: Faults) returns (reply: Reply)
      modifies this
      ensures Response(State(), reply) == Notes.Restore(old(State()), caller, id, faults)
    {
      now := now + 1;
      var loaded := Load(State(), caller, id, Action.Restore);
      if loaded.Err? {
        return Refused(loaded.error);
      }
      if loaded.value.note.deletedAt.None? {
        return Refused(409);
      }
      if 0 in faults {
        return Refused(500);
      }
      match Sql.RestoreNote(notes, id, now) {
        case Wrote(n) =>
          notes := notes[id := n];
          return Sent(200, NoteView(id, n, loaded.value.role));
        case _ =>
          return Refused(500);
      }
    }

    method UpsertShare(caller: Uuid, note: Uuid, kind: string, principalId: Uuid, role: string, faults: Faults)
      returns (reply: Reply)
      modifies this
      ensures Response(State(), reply)
              == Answer(cfg, old(State()), Step.UpsertShare(caller, note, kind, principalId, role), faults)
      ensures old(Sound()) ==> Sound()
    {
      reply := SetGrant(caller, note, kind, principalId, role, faults);
      StaysSound(cfg, old(State()), Step.UpsertShare(caller, note, kind, principalId, role), faults);
    }

    method SetGrant(caller: Uuid, note: Uuid, kind: string, principalId: Uuid, role: string, faults: Faults)
      returns (reply: Reply)
      modifies this
      ensures Response(State(), reply) == Shares.Upsert(old(State()), caller, note, kind, principalId, role, faults)
    {
      now := now + 1;
      var loaded := Load(State(), caller, note, Action.Share);
      if loaded.Err? {
        return Refused(loaded.error);
      }
      var p := Shares.ParsePrincipal(kind, principalId);
      if ParseGrantRole(role).None? || p.None? || principalId == NIL || p.value == UserPrincipal(caller) {
        return Refused(400);
      }
      if !Shares.ValidPrincipal(State(), p.value, caller) {
        return Refused(404);
      }
      if 0 in faults {
        return Refused(500);
      }
      shares := Sql.UpsertNoteShare(shares, GrantKey(note, p.value), role, caller, now);
      return Done(204);
    }

    method RevokeShare(caller: Uuid, note: Uuid, kind: string, principalId: Uuid, faults: Faults) returns (reply: Reply)
      modifies this
      ensures Response(State(), reply)
              == Answer(cfg, old(State()), Step.RevokeShare(caller, note, kind, principalId), faults)
      ensures old(Sound()) ==> Sound()
    {
      reply := DeleteGrant(caller, note, kind, principalId, faults);
      StaysSound(cfg, old(State()), Step.RevokeShare(caller, note, kind, principalId), faults);
    }

    method DeleteGrant(caller: Uuid, note: Uuid, kind: string, principalId: Uuid, faults: Faults) returns (reply: Reply)
      modifies this
      ensures Response(State(), reply) == Shares.Revoke(old(State()), caller, note, kind, principalId, faults)
    {
      now := now + 1;
      var loaded := Load(State(), caller, note, Action.RevokeShare);
      if loaded.Err? {
        return Refused(loaded.error);
      }
      var p := Shares.ParsePrincipal(kind, principalId);
      if p.None? {
        return Refused(404);
      }
      if 0 in faults {
        return Refused(500);
      }
      var affected := GrantKey(note, p.value) in shares;
      shares := shares - {GrantKey(note, p.value)};
      return if affected then Done(204) else Refused(404);
    }

    method CreateTeam(caller: Uuid, id: Uuid, name: string, faults: Faults) returns (reply: Reply)
      modifies this
      ensures Response(State(), reply) == Answer(cfg, old(State()), Step.CreateTeam(caller, id, name), faults)
      ensures old(Sound()) ==> Sound()
    {
      reply := InsertTeam(caller, id, name, faults);
      StaysSound(cfg, old(State()), Step.CreateTeam(caller, id, name), faults);
    }

    method InsertTeam(caller: Uuid, id: Uuid, name: string, faults: Faults) returns (reply: Reply)
      modifies this
      ensures Response(State(), reply) == Teams.Create(old(State()), caller, id, name, faults)
    {
      now := now + 1;
      var saved := State();
      var valid := Teams.ValidName(name);
      if valid.None? {
        return Refused(400);
      }
      reply := Refused(500);
      if 0 !in faults && id !in teams {
        teams := teams[id := Team(valid.value)];
        if 1 !in faults && caller in users {
          members := members[Membership(id, caller) := Admin];
          reply := Done(201);
        }
      }
      if 2 in faults || reply == Refused(500) {
        Rollback(saved);
        reply := Refused(500);
      }
    }

    method RenameTeam(caller: Uuid, team: Uuid, name: string, faults: Faults) returns (reply: Reply)
      modifies this
      ensures Response(State(), reply) == Answer(cfg, old(State()), Step.RenameTeam(caller, team, name), faults)
      ensures old(Sound()) ==> Sound()
    {
      now := now + 1;
      var denied := Teams.MembershipCheck(State(), caller, team, Admin);
      var valid := Teams.ValidName(name);
      if denied.Some? {
        reply := Refused(denied.value);
      } else if valid.None? {
        reply := Refused(400);
      } else if 0 in faults || team !in teams {
        reply := Refused(500);
      } else {
        teams := teams[team := Team(valid.value)];
        reply := Done(200);
      }
      StaysSound(cfg, old(State()), Step.RenameTeam(caller, team, name), faults);
    }

    method DeleteTeam(caller: Uuid, team: Uuid, faults: Faults) returns (reply: Reply)
      modifies this
      ensures Response(State(), reply) == Answer(cfg, old(State()), Step.DeleteTeam(caller, team), faults)
      ensures old(Sound()) ==> Sound()
    {
      reply := DeleteTeamAndGrants(caller, team, faults);
      StaysSound(cfg, old(State()), Step.DeleteTeam(caller, team), faults);
    }

    method DeleteTeamAndGrants(caller: Uuid, team: Uuid, faults: Faults) returns (reply: Reply)
      modifies this
      ensures Response(State(), reply) == Teams.Delete(old(State()), caller, team, faults)
    {
      now := now + 1;
      var saved := State();
      var denied := Teams.MembershipCheck(saved, caller, team, Admin);
      if denied.Some? {
        return Refused(denied.value);
      }
      reply := Refused(500);
      if 0 !in faults {
        shares := Sql.DeleteGrantsTo(shares, TeamPrincipal(team));
        if 1 !in faults {
          var affected := team in teams;
          teams := teams - {team};
          members := Sql.MembersWithout(members, team);
          reply := if !affected then Refused(404) else if 2 in faults then Refused(500) else Done(204);
        }
      }
      if reply != Done(204) {
        Rollback(saved);
      }
    }

    method AddMember(caller: Uuid, team: Uuid, user: Uuid, role: string, faults: Faults) returns (reply: Reply)
      modifies this
      ensures Response(State(), reply) == Answer(cfg, old(State()), Step.AddMember(caller, team, user, role), faults)
      ensures old(Sound()) ==> Sound()
    {
      now := now + 1;
      var saved := State();
      var denied := Teams.MembershipCheck(saved, caller, team, Admin);
      var r := Teams.ParseMemberRole(role);
      if denied.Some? {
        reply := Refused(denied.value);
      } else if r.None? || user == NIL {
        reply := Refused(400);
      } else if r.value.Member? && Teams.StrandsTeam(saved, team, user) {
        reply := Refused(409);
      } else if 0 in faults {
        reply := Refused(500);
      } else if team !in teams || user !in users {
        reply := Refused(404);
      } else {
        members := members[Membership(team, user) := r.value];
        reply := Done(204);
        if 1 in faults {
          Rollback(saved);
          reply := Refused(500);
        }
      }
      StaysSound(cfg, old(State()), Step.AddMember(caller, team, user, role), faults);
    }

    /** `removeFromTeam`, shared by removing a member and leaving. */
    method RemoveFromTeam(team: Uuid, user: Uuid, faults: Faults) returns (reply: Reply)
      modifies this
      ensures Response(State(), reply) == Teams.RemoveFromTeam(old(State()), team, user, faults)
    {
      var saved := State();
      if Teams.StrandsTeam(saved, team, user) {
        return Refused(409);
      }
      if 0 in faults {
        return Refused(500);
      }
      var affected := Membership(team, user) in members;
      members := members - {Membership(team, user)};
      reply := if !affected then Refused(404) else if 1 in faults then Refused(500) else Done(204);
      if reply != Done(204) {
        Rollback(saved);
      }
    }

    method RemoveMember(caller: Uuid, team: Uuid, user: Uuid, faults: Faults) returns (reply: Reply)
      modifies this
      ensures Response(State(), reply) == Answer(cfg, old(State()), Step.RemoveMember(caller, team, user), faults)
      ensures old(Sound()) ==> Sound()
    {
      reply := RemoveAsMember(caller, team, Admin, user, faults);
      StaysSound(cfg, old(State()), Step.RemoveMember(caller, team, user), faults);
    }

    method Leave(caller: Uuid, team: Uuid, faults: Faults) returns (reply: Reply)
      modifies this
      ensures Response(State(), reply) == Answer(cfg, old(State()), Step.Leave(caller, team), faults)
      ensures old(Sound()) ==> Sound()
    {
      reply := RemoveAsMember(caller, team, Member, caller, faults);
      StaysSound(cfg, old(State()), Step.Leave(caller, team), faults);
    }

    /** What removing a member and leaving have in common: the caller's membership is checked first. */
    method RemoveAsMember(caller: Uuid, team: Uuid, required: MemberRole, user: Uuid, faults: Faults)
      returns (reply: Reply)
      modifies this
      ensures Response(State(), reply) ==
              match Teams.MembershipCheck(Tick(old(State())), caller, team, required)
              case Some(status) => Response(Tick(old(State())), Refused(status))
              case None => Teams.RemoveFromTeam(Tick(old(State())), team, user, faults)
    {
      now := now + 1;
      var denied := Teams.MembershipCheck(State(), caller, team, required);
      if denied.Some? {
        return Refused(denied.value);
      }
      reply := RemoveFromTeam(team, user, faults);
    }

    method Register(id: Uuid, email: string, displayName: string, faults: Faults) returns (reply: Reply)
      modifies this
      ensures Response(State(), reply) == Answer(cfg, old(State()), Step.Register(id, email, displayName), faults)
      ensures old(Sound()) ==> Sound()
    {
      now := now + 1;
      if 0 in faults || id in users {
        reply := Refused(500);
      } else if Accounts.EmailTaken(users, email, id) {
        reply := Refused(409);
      } else {
        users := users[id := User(email, displayName, None)];
        reply := Done(200);
      }
      StaysSound(cfg, old(State()), Step.Register(id, email, displayName), faults);
    }

    method UpdateMe(caller: Uuid, email: Option<string>, displayName: Option<string>, faults: Faults)
      returns (reply: Reply)
      modifies this
      ensures Response(State(), reply) == Answer(cfg, old(State()), Step.UpdateMe(caller, email, displayName), faults)
      ensures old(Sound()) ==> Sound()
    {
      now := now + 1;
      if 0 in faults {
        reply := Refused(500);
      } else if !Accounts.Live(users, caller) {
        reply := Refused(401);
      } else {
        var u := users[caller];
        var v := u.(email := Sql.Coalesce(email, u.email), displayName := Sql.Coalesce(displayName, u.displayName));
        if Accounts.EmailTaken(users, v.email, caller) {
          reply := Refused(409);
        } else {
          users := users[caller := v];
          reply := Done(200);
        }
      }
      StaysSound(cfg, old(State()), Step.UpdateMe(caller, email, displayName), faults);
    }

    method DeleteMe(caller: Uuid, faults: Faults) returns (reply: Reply)
      modifies this
      ensures Response(State(), reply) == Answer(cfg, old(State()), Step.DeleteMe(caller), faults)
      ensures old(Sound()) ==> Sound()
    {
      reply := DeleteAccountAndGrants(caller, faults);
      StaysSound(cfg, old(State()), Step.DeleteMe(caller), faults);
    }

    method DeleteAccountAndGrants(caller: Uuid, faults: Faults) returns (reply: Reply)
      modifies this
      ensures Response(State(), reply) == Accounts.DeleteMe(old(State()), caller, faults)
    {
      now := now + 1;
      var saved := State();
      reply := Refused(401);
      if 0 !in faults && Accounts.Live(users, caller) {
        users := users[caller := users[caller].(deletedAt := Some(now))];
        if 1 !in faults {
          shares := Sql.DeleteGrantsTo(shares, UserPrincipal(caller));
          reply := if 2 in faults then Refused(401) else Done(204);
        }
      }
      if reply != Done(204) {
        Rollback(saved);
      }
    }

    method CreateAttachment(caller: Uuid, note: Uuid, id: Uuid, key: string, filename: string, mimeType: string,
                        size: int, faults: Faults)
      returns (reply: Reply)
      modifies this
      ensures Response(State(), reply)
           == Answer(cfg, old(State()), Step.Reserve(caller, note, id, key, filename, mimeType, size), faults)
      ensures old(Sound()) ==> Sound()
    {
      reply := InsertPending(caller, note, id, key, filename, mimeType, size, faults);
      StaysSound(cfg, old(State()), Step.Reserve(caller, note, id, key, filename, mimeType, size), faults);
    }

    method InsertPending(caller: Uuid, note: Uuid, id: Uuid, key: string, filename: string, mimeType: string,
                        size: int, faults: Faults)
      returns (reply: Reply)
      modifies this
      ensures Response(State(), reply)
           == Attachments.Reserve(cfg, old(State()), caller, note, id, key, filename, mimeType, size, faults)
    {
      now := now + 1;
      var loaded := Load(State(), caller, note, AddAttachment);
      if loaded.Err? {
        return Refused(loaded.error);
      }
      if filename == "" || size <= 0 || size > cfg.maxBytes || !cfg.mimeAllowed(mimeType) {
        return Refused(400);
      }
      if 0 in faults || id in attachments || Attachments.KeyTaken(attachments, key) || caller !in users {
        return Refused(500);
      }
      var row := Attachment(note, key, filename, mimeType, size, None, Pending, caller, now, None);
      attachments := attachments[id := row];
      return if 1 in faults then Refused(500) else File(201, id, row);
    }

    method CompleteAttachment(caller: Uuid, note: Uuid, id: Uuid, faults: Faults) returns (reply: Reply)
      modifies this
      ensures Response(State(), reply) == Answer(cfg, old(State()), Step.Complete(caller, note, id), faults)
      ensures old(Sound()) ==> Sound()
    {
      reply := VerifyUpload(caller, note, id, faults);
      StaysSound(cfg, old(State()), Step.Complete(caller, note, id), faults);
    }

    method VerifyUpload(caller: Uuid, note: Uuid, id: Uuid, faults: Faults) returns (reply: Reply)
      modifies this
      ensures Response(State(), reply) == Attachments.Complete(cfg, old(State()), caller, note, id, faults)
    {
      now := now + 1;
      var loaded := Load(State(), caller, note, AddAttachment);
      if loaded.Err? {
        return Refused(loaded.error);
      }
      if !Attachments.Belongs(attachments, id, note) {
        return Refused(404);
      }
      var row := attachments[id];
      if row.status.Ready? {
        return File(200, id, row);
      }
      if 0 in faults {
        return Refused(500);
      }
      if row.objectKey !in objects {
        return Refused(409);
      }
      var info := objects[row.objectKey];
      if info.size > cfg.maxBytes {
        if 1 !in faults {
          objects := objects - {row.objectKey};
        }
        return Refused(413);
      }
      if 1 in faults || info.size <= 0 {
        return Refused(500);
      }
      var ready := Sql.Completed(row, info.size, info.etag, now);
      attachments := attachments[id := ready];
      return File(200, id, ready);
    }

    method DeleteAttachment(caller: Uuid, note: Uuid, id: Uuid, faults: Faults) returns (reply: Reply)
      modifies this
      ensures Response(State(), reply) == Answer(cfg, old(State()), Step.RemoveFile(caller, note, id), faults)
      ensures old(Sound()) ==> Sound()
    {
      reply := DeleteRowThenObject(caller, note, id, faults);
      StaysSound(cfg, old(State()), Step.RemoveFile(caller, note, id), faults);
    }

    method DeleteRowThenObject(caller: Uuid, note: Uuid, id: Uuid, faults: Faults) returns (reply: Reply)
      modifies this
      ensures Response(State(), reply) == Attachments.Remove(old(State()), caller, note, id, faults)
    {
      now := now + 1;
      var loaded := Load(State(), caller, note, RemoveAttachment);
      if loaded.Err? {
        return Refused(loaded.error);
      }
      if !Attachments.Belongs(attachments, id, note) {
        return Refused(404);
      }
      var refs := References.ReferencedIDs(loaded.value.note.body);
      if id in refs {
        return Refused(409);
      }
      if 0 in faults {
        return Refused(500);
      }
      var key := attachments[id].objectKey;
      attachments := attachments - {id};
      if 1 !in faults {
        objects := objects - {key};
      }
      return Done(204);
    }

    /** `ListStaleUploads`: picks an oldest stale row not yet picked, until the limit. */
    method ListStaleUploads(cutoff: int, limit: nat) returns (rows: seq<Uuid>)
      ensures Sql.StaleListing(attachments, cutoff, limit, rows)
    {
      rows := [];
      var left := set id | id in attachments && Sql.Stale(attachments, id, cutoff);
      while |rows| < limit && left != {}
        invariant |rows| <= limit
        invariant forall i | 0 <= i < |rows| :: Sql.Stale(attachments, rows[i], cutoff) && rows[i] !in left
        invariant forall id | Sql.Stale(attachments, id, cutoff) :: id in left || id in rows
        invariant forall id | id in left :: Sql.Stale(attachments, id, cutoff)
        invariant forall i, id | 0 <= i < |rows| && id in left ::
            attachments[rows[i]].createdAt <= attachments[id].createdAt
        invariant forall i, j | 0 <= i < j < |rows| ::
            rows[i] != rows[j] && attachments[rows[i]].createdAt <= attachments[rows[j]].createdAt
        decreases limit - |rows|
      {
        var oldest := Oldest(left);
        rows := rows + [oldest];
        left := left - {oldest};
      }
      assert forall r | r in rows :: exists i :: 0 <= i < |rows| && rows[i] == r;
    }

    method Oldest(ids: set<Uuid>) returns (oldest: Uuid)
      requires ids != {} && forall id | id in ids :: id in attachments
      ensures oldest in ids && forall id | id in ids :: attachments[oldest].createdAt <= attachments[id].createdAt
    {
      oldest :| oldest in ids;
      var left := ids - {oldest};
      while left != {}
        invariant left <= ids && oldest in ids
        invariant forall id | id in ids - left :: attachments[oldest].createdAt <= attachments[id].createdAt
        decreases |left|
      {
        var id :| id in left;
        if attachments[id].createdAt < attachments[oldest].createdAt {
          oldest := id;
        }
        left := left - {id};
      }
    }

    /** One row of the sweep: the object goes before the row, and a failure leaves the rest. */
    method SweepRow(id: Uuid, i: nat, faults: Faults) returns (ok: bool)
      requires id in attachments
      modifies this
      ensures State() == Attachments.SweepOne(old(State()), id, i, faults)
      ensures attachments == if ok then old(attachments) - {id} else old(attachments)
    {
      var key := attachments[id].objectKey;
      if 2 * i in faults {
        return false;
      }
      objects := objects - {key};
      if 2 * i + 1 in faults {
        return false;
      }
      attachments := attachments - {id};
      return true;
    }

    /** The sweep counts what failed and goes on. */
    method Sweep(cutoff: int, limit: nat, faults: Faults) returns (rows: seq<Uuid>, deleted: nat, failed: nat)
      modifies this
      ensures Sql.StaleListing(old(attachments), cutoff, limit, rows)
      ensures State() == Attachments.Sweep(old(State()), rows, faults)
      ensures deleted + failed == |rows| && deleted == |old(attachments)| - |attachments|
      ensures old(Sound()) ==> Sound()
    {
      now := now + 1;
      rows := ListStaleUploads(cutoff, limit);
      deleted, failed := 0, 0;
      for i := 0 to |rows|
        invariant Attachments.SweepFrom(State(), rows, i, faults) == Attachments.Sweep(old(State()), rows, faults)
        invariant deleted + failed == i && deleted == |old(attachments)| - |attachments|
        invariant forall k | i <= k < |rows| :: rows[k] in attachments
      {
        var ok := SweepRow(rows[i], i, faults);
        if ok {
          deleted := deleted + 1;
        } else {
          failed := failed + 1;
        }
      }
      if old(Sound()) {
        SweepStaysSound(cfg, old(State()), cutoff, limit, rows, faults);
      }
    }
  }
}
