/** What the replies to a caller's own requests tell: nothing about notes hidden from the caller, but
    for one that is to be restored. */
module Disclosure {
  import opened Wrappers
  import opened Uuids
  import opened Schema
  import opened Authz
  import opened Access
  import opened Replies
  import opened Machine
  import opened Visibility
  import Sql
  import ETags
  import Notes
  import Shares
  import Attachments

  /** Two states that a user cannot tell apart, at the same time and with the same objects stored. */
  ghost predicate Alike(a: Db, b: Db, user: Uuid) {
    SameToUser(a, b, user) && a.now == b.now && a.objects == b.objects
  }

  lemma TickKeepsAlike(a: Db, b: Db, user: Uuid)
    requires Alike(a, b, user)
    ensures Alike(Tick(a), Tick(b), user)
  {
    var c, d := Tick(a), Tick(b);
    forall id
      ensures SameNote(c, d, id) || (Hidden(c, user, id) && Hidden(d, user, id))
    {
      if SameNote(a, b, id) {
        assert SameNote(c, d, id);
      } else {
        TickKeepsHidden(a, user, id);
        TickKeepsHidden(b, user, id);
      }
    }
  }

  lemma TickKeepsHidden(db: Db, user: Uuid, id: Uuid)
    ensures RoleOn(Tick(db), user, id) == RoleOn(db, user, id)
    ensures Hidden(Tick(db), user, id) <==> Hidden(db, user, id)
  {
    assert MatchingRanks(Tick(db), user, id) == MatchingRanks(db, user, id);
  }

  /** Every action but restoring loads the same in both, and loads only what is the same in both. */
  lemma AlikeLoads(a: Db, b: Db, user: Uuid, id: Uuid, action: Action)
    requires Alike(a, b, user) && action != Action.Restore
    ensures Load(Tick(a), user, id, action) == Load(Tick(b), user, id, action)
    ensures Load(Tick(a), user, id, action).Ok? ==> SameNote(Tick(a), Tick(b), id)
  {
    TickKeepsAlike(a, b, user);
    SameLoad(Tick(a), Tick(b), user, id, action);
  }

  lemma SameReferences(a: Db, b: Db, id: Uuid, body: string)
    requires SameNote(a, b, id)
    ensures Notes.ReferencesUsable(a.attachments, id, body) <==> Notes.ReferencesUsable(b.attachments, id, body)
  {
    forall f
      ensures (f in a.attachments && a.attachments[f].note == id && a.attachments[f].status.Ready?) <==>
              (f in b.attachments && b.attachments[f].note == id && b.attachments[f].status.Ready?)
    {
      assert (f in a.attachments && a.attachments[f].note == id) <==>
             (f in b.attachments && b.attachments[f].note == id);
    }
  }

  lemma SameConflict(a: Db, b: Db, user: Uuid, id: Uuid, expected: int)
    requires a.members == b.members && SameNote(a, b, id)
    ensures Notes.ConflictReply(a, user, id, expected) == Notes.ConflictReply(b, user, id, expected)
  {
    SameRole(a, b, user, id);
  }

  lemma UpdateTellsNothing(cfg: Config, a: Db, b: Db, user: Uuid, id: Uuid, ifMatch: string, patch: Sql.Patch,
                           faults: Faults)
    requires Alike(a, b, user)
    ensures Notes.Update(cfg, a, user, id, ifMatch, patch, faults).reply
         == Notes.Update(cfg, b, user, id, ifMatch, patch, faults).reply
  {
    AlikeLoads(a, b, user, id, Action.Update);
    var c, d := Tick(a), Tick(b);
    if Load(c, user, id, Action.Update).Ok? && ETags.IfMatchVersion(ifMatch).Ok? {
      SameConflict(c, d, user, id, ETags.IfMatchVersion(ifMatch).value);
      var checked := Notes.CheckedPatch(patch, cfg.lower);
      if checked.Ok? && checked.value.body.Some? {
        SameReferences(c, d, id, checked.value.body.value);
      }
    }
  }

  lemma DeletionTellsNothing(a: Db, b: Db, user: Uuid, id: Uuid, faults: Faults)
    requires Alike(a, b, user)
    ensures Notes.Delete(a, user, id, faults).reply == Notes.Delete(b, user, id, faults).reply
  {
    AlikeLoads(a, b, user, id, Action.Delete);
  }

  lemma SharingTellsNothing(a: Db, b: Db, user: Uuid, note: Uuid, kind: string, p: Uuid, role: string, faults: Faults)
    requires Alike(a, b, user)
    ensures Shares.Upsert(a, user, note, kind, p, role, faults).reply
         == Shares.Upsert(b, user, note, kind, p, role, faults).reply
    ensures Shares.Revoke(a, user, note, kind, p, faults).reply == Shares.Revoke(b, user, note, kind, p, faults).reply
  {
    AlikeLoads(a, b, user, note, Action.Share);
    AlikeLoads(a, b, user, note, Action.RevokeShare);
  }

  /** A new id or key is as free in one state as in the other. */
  ghost predicate FreshAlike(a: Db, b: Db, step: Step) {
    && (step.CreateNote? ==> (step.id in a.notes <==> step.id in b.notes))
    && (step.Reserve? ==>
          && (step.id in a.attachments <==> step.id in b.attachments)
          && (Attachments.KeyTaken(a.attachments, step.key) <==> Attachments.KeyTaken(b.attachments, step.key)))
  }

  lemma ReservationTellsNothing(cfg: Config, a: Db, b: Db, user: Uuid, step: Step, faults: Faults)
    requires Alike(a, b, user) && step.Reserve? && step.caller == user && FreshAlike(a, b, step)
    ensures Answer(cfg, a, step, faults).reply == Answer(cfg, b, step, faults).reply
  {
    AlikeLoads(a, b, user, step.note, AddAttachment);
  }

  lemma SameBelongs(a: Db, b: Db, note: Uuid, id: Uuid)
    requires SameNote(a, b, note)
    ensures Attachments.Belongs(a.attachments, id, note) <==> Attachments.Belongs(b.attachments, id, note)
    ensures Attachments.Belongs(a.attachments, id, note) ==> a.attachments[id] == b.attachments[id]
  {
    assert (id in a.attachments && a.attachments[id].note == note) <==>
           (id in b.attachments && b.attachments[id].note == note);
  }

  lemma CompletionTellsNothing(cfg: Config, a: Db, b: Db, user: Uuid, note: Uuid, id: Uuid, faults: Faults)
    requires Alike(a, b, user)
    ensures Attachments.Complete(cfg, a, user, note, id, faults).reply
         == Attachments.Complete(cfg, b, user, note, id, faults).reply
  {
    AlikeLoads(a, b, user, note, AddAttachment);
    if Load(Tick(a), user, note, AddAttachment).Ok? {
      SameBelongs(Tick(a), Tick(b), note, id);
    }
  }

  lemma RemovalTellsNothing(a: Db, b: Db, user: Uuid, note: Uuid, id: Uuid, faults: Faults)
    requires Alike(a, b, user)
    ensures Attachments.Remove(a, user, note, id, faults).reply == Attachments.Remove(b, user, note, id, faults).reply
  {
    AlikeLoads(a, b, user, note, RemoveAttachment);
    if Load(Tick(a), user, note, RemoveAttachment).Ok? {
      SameBelongs(Tick(a), Tick(b), note, id);
    }
  }

  predicate OnTeams(step: Step) {
    || step.CreateTeam? || step.RenameTeam? || step.DeleteTeam? || step.AddMember? || step.RemoveMember? || step.Leave?
  }

  lemma TeamStepsTellNothing(cfg: Config, a: Db, b: Db, user: Uuid, step: Step, faults: Faults)
    requires Alike(a, b, user) && OnTeams(step)
    ensures Answer(cfg, a, step, faults).reply == Answer(cfg, b, step, faults).reply
  {
  }

  lemma EditStepsTellNothing(cfg: Config, a: Db, b: Db, user: Uuid, step: Step, faults: Faults)
    requires Alike(a, b, user) && Actor(Event(step, faults)) == Some(user) && FreshAlike(a, b, step)
    requires step.CreateNote? || step.UpdateNote? || step.DeleteNote?
    ensures Answer(cfg, a, step, faults).reply == Answer(cfg, b, step, faults).reply
  {
    if step.UpdateNote? {
      UpdateTellsNothing(cfg, a, b, user, step.note, step.ifMatch, step.patch, faults);
    } else if step.DeleteNote? {
      DeletionTellsNothing(a, b, user, step.note, faults);
    }
  }

  lemma ShareStepsTellNothing(cfg: Config, a: Db, b: Db, user: Uuid, step: Step, faults: Faults)
    requires Alike(a, b, user) && Actor(Event(step, faults)) == Some(user) && (step.UpsertShare? || step.RevokeShare?)
    ensures Answer(cfg, a, step, faults).reply == Answer(cfg, b, step, faults).reply
  {
    if step.UpsertShare? {
      SharingTellsNothing(a, b, user, step.note, step.kind, step.principal, step.role, faults);
    } else {
      SharingTellsNothing(a, b, user, step.note, step.kind, step.principal, "", faults);
    }
  }

  /** No reply to a user's own request, restoring a note apart, depends on notes hidden from them. */
  lemma AnswersDependOnVisible(cfg: Config, a: Db, b: Db, user: Uuid, step: Step, faults: Faults)
    requires Alike(a, b, user) && Actor(Event(step, faults)) == Some(user) && !step.RestoreNote?
    requires FreshAlike(a, b, step)
    ensures Answer(cfg, a, step, faults).reply == Answer(cfg, b, step, faults).reply
  {
    if OnTeams(step) {
      TeamStepsTellNothing(cfg, a, b, user, step, faults);
    } else if step.Reserve? {
      ReservationTellsNothing(cfg, a, b, user, step, faults);
    } else if step.Complete? {
      CompletionTellsNothing(cfg, a, b, user, step.note, step.id, faults);
    } else if step.RemoveFile? {
      RemovalTellsNothing(a, b, user, step.note, step.id, faults);
    } else if step.UpsertShare? || step.RevokeShare? {
      ShareStepsTellNothing(cfg, a, b, user, step, faults);
    } else if !step.UpdateMe? && !step.DeleteMe? {
      EditStepsTellNothing(cfg, a, b, user, step, faults);
    }
  }

  /** What restoring answers to someone who does not own the note. */
  lemma RestoreRefusesOthers(db: Db, user: Uuid, id: Uuid, faults: Faults)
    requires id in db.notes ==> db.notes[id].owner != user
    ensures Notes.Restore(db, user, id, faults).reply == Refused(if RoleOn(db, user, id) == ROLE_NONE then 404 else 403)
  {
    TickKeepsHidden(db, user, id);
    LoadDecides(Tick(db), user, id, Action.Restore);
    if id in db.notes {
      RoleIsStrongestGrant(Tick(db), user, id, ROLE_OWNER);
    }
  }

  /** Restoring is the exception: of two states alike to the user it answers alike exactly when the
      user has a role on the note in both or in neither. */
  lemma RestoreTellsRole(a: Db, b: Db, user: Uuid, id: Uuid, faults: Faults)
    requires Alike(a, b, user)
    ensures Notes.Restore(a, user, id, faults).reply == Notes.Restore(b, user, id, faults).reply <==>
            (RoleOn(a, user, id) == ROLE_NONE <==> RoleOn(b, user, id) == ROLE_NONE)
  {
    if SameNote(a, b, id) {
      SameRole(a, b, user, id);
      TickKeepsHidden(a, user, id);
      TickKeepsHidden(b, user, id);
    } else {
      RestoreRefusesOthers(a, user, id, faults);
      RestoreRefusesOthers(b, user, id, faults);
    }
  }

  /** So a deleted note does not disappear altogether for those it was shared with: reading it is
      refused with 404, and restoring it with 403 exactly to those who have a role on it. */
  lemma DeletedNoteShowsInRestore(db: Db, user: Uuid, id: Uuid, faults: Faults)
    requires id in db.notes && db.notes[id].deletedAt.Some? && db.notes[id].owner != user
    ensures Notes.Get(db, user, id) == Refused(404)
    ensures Notes.Restore(db, user, id, faults).reply == Refused(403) <==> RoleOn(db, user, id) > ROLE_NONE
  {
    LoadDecides(db, user, id, Read);
    RestoreRefusesOthers(db, user, id, faults);
  }
}
