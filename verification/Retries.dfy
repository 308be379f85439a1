/** What a client can rely on from one reply to its next request (internal/notes/handler.go). */
module Retries {
  import opened Wrappers
  import opened Uuids
  import opened Schema
  import opened Authz
  import opened Access
  import opened Replies
  import opened Integrity
  import Sql
  import Text
  import Tags
  import ETags
  import References
  import Notes

  /** The note after an accepted patch: a field that is carried is set, tags as they are normalised;
      one that is not carried keeps its value; the version is the one after the one named. */
  predicate Patched(before: Note, after: Note, patch: Sql.Patch, lower: char -> char, t: int) {
    && after.title == (if patch.title.Some? then Text.TrimSpace(patch.title.value) else before.title)
    && after.body == (if patch.body.Some? then patch.body.value else before.body)
    && (if patch.tags.Some? then Tags.Normalized(patch.tags.value, lower) == Ok(after.tags)
        else after.tags == before.tags)
    && after.version == before.version + 1 && after.updatedAt == t
    && after.owner == before.owner && after.createdAt == before.createdAt && after.deletedAt == None
  }

  /** What makes a patch acceptable by itself. */
  predicate Acceptable(cfg: Config, db: Db, id: Uuid, patch: Sql.Patch) {
    && (patch.title.Some? ==> Notes.ValidTitle(Text.TrimSpace(patch.title.value)))
    && (patch.tags.Some? ==> Tags.Normalized(patch.tags.value, cfg.lower).Ok?)
    && (patch.body.Some? ==> Notes.ReferencesUsable(db.attachments, id, patch.body.value))
  }

  lemma TickKeepsRoles(db: Db, user: Uuid, id: Uuid)
    ensures RoleOn(Tick(db), user, id) == RoleOn(db, user, id)
  {
    assert MatchingRanks(Tick(db), user, id) == MatchingRanks(db, user, id);
  }

  /** An editor of a live note sends a header and a patch that can be used. */
  predicate MayPatch(cfg: Config, db: Db, caller: Uuid, id: Uuid, ifMatch: string, patch: Sql.Patch, faults: Faults) {
    && RoleOn(db, caller, id) >= ROLE_EDITOR && db.notes[id].deletedAt.None?
    && ETags.IfMatchVersion(ifMatch).Ok? && Acceptable(cfg, db, id, patch) && 0 !in faults
  }

  /** What is checked comes first; the conditional write decides the rest. */
  lemma ChecksComeFirst(cfg: Config, db: Db, caller: Uuid, id: Uuid, ifMatch: string, patch: Sql.Patch, faults: Faults)
    ensures var d, r := Tick(db), Notes.Update(cfg, db, caller, id, ifMatch, patch, faults);
            if !MayPatch(cfg, db, caller, id, ifMatch, patch, faults) then r.db == d && r.reply.Refused?
            else
              && Notes.CheckedPatch(patch, cfg.lower).Ok?
              && var v, p := ETags.IfMatchVersion(ifMatch).value, Notes.CheckedPatch(patch, cfg.lower).value;
                 match Sql.UpdateNote(db.notes, id, v, p, d.now)
                 case Wrote(n) =>
                   r == Response(d.(notes := db.notes[id := n]), Sent(200, NoteView(id, n, RoleOn(db, caller, id))))
                 case Overflow => r == Response(d, Refused(500))
                 case NoRow => r == Response(d, Notes.ConflictReply(d, caller, id, v))
  {
    LoadDecides(Tick(db), caller, id, Action.Update);
    TickKeepsRoles(db, caller, id);
  }

  lemma WrittenIsPatched(note: Note, id: Uuid, notes: map<Uuid, Note>, patch: Sql.Patch, lower: char -> char,
                         v: int, t: int)
    requires id in notes && notes[id] == note && note.deletedAt.None? && Notes.CheckedPatch(patch, lower).Ok?
    ensures var w := Sql.UpdateNote(notes, id, v, Notes.CheckedPatch(patch, lower).value, t);
            && (w.Wrote? <==> v == note.version && v < MAX_VERSION)
            && (w.NoRow? <==> v != note.version)
            && (w.Wrote? ==> Patched(note, w.note, patch, lower, t))
  {
  }

  /** An update is accepted exactly when the caller is at least an editor of a live note, the header
      names its current version, the patch is acceptable and the write goes through; and then it
      does to the note what the patch says, and to nothing else. */
  lemma UpdateAcceptedWhen(cfg: Config, db: Db, caller: Uuid, id: Uuid, ifMatch: string, patch: Sql.Patch,
                      faults: Faults)
    ensures var r := Notes.Update(cfg, db, caller, id, ifMatch, patch, faults);
            && (r.reply.Sent? <==>
                  && RoleOn(db, caller, id) >= ROLE_EDITOR && db.notes[id].deletedAt.None?
                  && ETags.IfMatchVersion(ifMatch) == Ok(db.notes[id].version)
                  && Acceptable(cfg, db, id, patch)
                  && 0 !in faults && db.notes[id].version < MAX_VERSION)
            && (r.reply.Sent? ==>
                  && id in r.db.notes && Patched(db.notes[id], r.db.notes[id], patch, cfg.lower, r.db.now)
                  && r.db == Tick(db).(notes := db.notes[id := r.db.notes[id]])
                  && r.reply == Sent(200, NoteView(id, r.db.notes[id], RoleOn(db, caller, id))))
            && (!r.reply.Sent? ==> r.db == Tick(db))
  {
    ChecksComeFirst(cfg, db, caller, id, ifMatch, patch, faults);
    if MayPatch(cfg, db, caller, id, ifMatch, patch, faults) {
      var v := ETags.IfMatchVersion(ifMatch).value;
      WrittenIsPatched(db.notes[id], id, db.notes, patch, cfg.lower, v, db.now + 1);
    }
  }

  /** What a 409 says: all is well but for the version, which is not the one named. */
  lemma ConflictMeans(cfg: Config, db: Db, caller: Uuid, id: Uuid, ifMatch: string, patch: Sql.Patch, faults: Faults)
    requires Notes.Update(cfg, db, caller, id, ifMatch, patch, faults).reply.Stale?
    ensures var r := Notes.Update(cfg, db, caller, id, ifMatch, patch, faults);
            && r.db == Tick(db) && id in db.notes && r.reply.current.note == db.notes[id]
            && RoleOn(db, caller, id) >= ROLE_EDITOR && db.notes[id].deletedAt.None? && Acceptable(cfg, db, id, patch)
            && ETags.IfMatchVersion(ifMatch) == Ok(r.reply.sent) && db.notes[id].version != r.reply.sent
  {
    ChecksComeFirst(cfg, db, caller, id, ifMatch, patch, faults);
  }

  /** A 409 carries what is needed to go on: sent again under the entity tag of the note it reports,
      the same patch is accepted, provided nobody writes in between and the write goes through. */
  lemma RetryAfterConflictSucceeds(cfg: Config, db: Db, caller: Uuid, id: Uuid, ifMatch: string, patch: Sql.Patch,
                      faults: Faults)
    requires NotesOk(db) && Notes.Update(cfg, db, caller, id, ifMatch, patch, faults).reply.Stale?
    ensures var r := Notes.Update(cfg, db, caller, id, ifMatch, patch, faults);
            var current := r.reply.current.note;
            && r.db == Tick(db) && current == db.notes[id] && current.version != r.reply.sent
            && ETags.IfMatchVersion(ifMatch) == Ok(r.reply.sent)
            && (current.version < MAX_VERSION ==>
                  var again := Notes.Update(cfg, r.db, caller, id, ETags.SetETag(current.version), patch, {});
                  again.reply.Sent? && again.reply.view.note.version == current.version + 1)
  {
    ConflictMeans(cfg, db, caller, id, ifMatch, patch, faults);
    var r := Notes.Update(cfg, db, caller, id, ifMatch, patch, faults);
    var version := r.reply.current.note.version;
    if version < MAX_VERSION {
      ETags.IfMatchInvertsETag(version);
      TickKeepsRoles(db, caller, id);
      UpdateAcceptedWhen(cfg, r.db, caller, id, ETags.SetETag(version), patch, {});
    }
  }

  /** Two updates that name the same version: once one is accepted, the other is a conflict, and its
      reply reports a later version. */
  lemma SecondUpdateConflicts(cfg: Config, db: Db, a: Uuid, b: Uuid, id: Uuid, ifMatch: string,
                              p: Sql.Patch, q: Sql.Patch, f: Faults, g: Faults)
    requires Notes.Update(cfg, db, a, id, ifMatch, p, f).reply.Sent?
    ensures var after := Notes.Update(cfg, db, a, id, ifMatch, p, f).db;
            var second := Notes.Update(cfg, after, b, id, ifMatch, q, g);
            && !second.reply.Sent? && second.db == Tick(after)
            && (second.reply.Stale? <==> RoleOn(db, b, id) >= ROLE_EDITOR && Acceptable(cfg, db, id, q) && 0 !in g)
            && (second.reply.Stale? ==> second.reply.current.note.version == second.reply.sent + 1)
  {
    UpdateAcceptedWhen(cfg, db, a, id, ifMatch, p, f);
    var after := Notes.Update(cfg, db, a, id, ifMatch, p, f).db;
    NoteDoesNotDecide(cfg, db, after, b, id, ifMatch, q, g);
    ChecksComeFirst(cfg, after, b, id, ifMatch, q, g);
  }

  /** Whether a patch may be tried does not depend on what a live note holds. */
  lemma NoteDoesNotDecide(cfg: Config, db: Db, after: Db, user: Uuid, id: Uuid, ifMatch: string, q: Sql.Patch,
                          g: Faults)
    requires id in db.notes && id in after.notes && after == Tick(db).(notes := after.notes)
    requires db.notes[id].deletedAt.None? && after.notes[id].deletedAt.None?
    requires after.notes[id].owner == db.notes[id].owner
    ensures MayPatch(cfg, after, user, id, ifMatch, q, g) <==> MayPatch(cfg, db, user, id, ifMatch, q, g)
    ensures RoleOn(after, user, id) == RoleOn(db, user, id)
  {
    assert MatchingRanks(after, user, id) == MatchingRanks(db, user, id);
  }

  /** A note is created exactly when its title, its tags and its text are acceptable: the text of a
      note without attachments can refer to none. Until it is shared only its creator can see it. */
  lemma CreationAcceptedWhen(cfg: Config, db: Db, caller: Uuid, id: Uuid, title: string, body: string,
                      tags: seq<string>, faults: Faults)
    requires GrantsOk(db)
    ensures var r := Notes.Create(cfg, db, caller, id, title, body, tags, faults);
            && (r.reply.Sent? <==>
                  && Notes.ValidTitle(Text.TrimSpace(title)) && Tags.Normalized(tags, cfg.lower).Ok?
                  && References.Referenced(body) == {}
                  && 0 !in faults && id !in db.notes && caller in db.users)
            && (r.reply.Sent? ==>
                  && r.reply == Sent(201, NoteView(id, r.db.notes[id], ROLE_OWNER))
                  && r.db.notes[id].title == Text.TrimSpace(title) && r.db.notes[id].body == body
                  && Tags.Normalized(tags, cfg.lower) == Ok(r.db.notes[id].tags)
                  && r.db.notes[id].owner == caller && r.db.notes[id].deletedAt == None
                  && r.db.notes[id].createdAt == r.db.notes[id].updatedAt == db.now + 1
                  && ETags.IfMatchVersion(ETags.SetETag(r.db.notes[id].version)) == Ok(1)
                  && (forall u: Uuid :: RoleOn(r.db, u, id) == if u == caller then ROLE_OWNER else ROLE_NONE)
                  && r.db == Tick(db).(notes := db.notes[id := r.db.notes[id]]))
            && (!r.reply.Sent? ==> r.db == Tick(db))
  {
    var r := Notes.Create(cfg, db, caller, id, title, body, tags, faults);
    ETags.IfMatchInvertsETag(1);
    if r.reply.Sent? {
      forall u: Uuid
        ensures RoleOn(r.db, u, id) == if u == caller then ROLE_OWNER else ROLE_NONE
      {
        NobodyMatches(db, r.db, u, id);
      }
    }
  }

  /** No grant is for a note that does not exist yet. */
  lemma NobodyMatches(db: Db, next: Db, user: Uuid, id: Uuid)
    requires GrantsOk(db) && id !in db.notes && next.shares == db.shares
    ensures MatchingRanks(next, user, id) == {}
  {
    forall k | k in db.shares
      ensures k.note != id
    {
      assert GrantOk(db, k, db.shares[k]);
    }
  }

  /** The owner of a live note deletes it, and the owner of a deleted note restores it; nobody else
      does either, and each raises the version by one. */
  lemma DeletionAcceptedWhen(db: Db, caller: Uuid, id: Uuid, faults: Faults)
    ensures var r := Notes.Delete(db, caller, id, faults);
            && (r.reply == Done(204) <==>
                  && id in db.notes && db.notes[id].owner == caller && db.notes[id].deletedAt.None?
                  && 0 !in faults && db.notes[id].version < MAX_VERSION)
            && (r.reply != Done(204) ==> r.db == Tick(db))
            && (r.reply == Done(204) ==>
                  && id in r.db.notes
                  && r.db.notes[id].deletedAt == Some(r.db.now) && r.db.notes[id].version == db.notes[id].version + 1)
  {
    OnlyOwnerMay(db, caller, id, Action.Delete);
  }

  lemma RestorationAcceptedWhen(db: Db, caller: Uuid, id: Uuid, faults: Faults)
    ensures var r := Notes.Restore(db, caller, id, faults);
            && (r.reply.Sent? <==>
                  && id in db.notes && db.notes[id].owner == caller && db.notes[id].deletedAt.Some?
                  && 0 !in faults && db.notes[id].version < MAX_VERSION)
            && (!r.reply.Sent? ==> r.db == Tick(db))
            && (r.reply == Refused(409) <==>
                  id in db.notes && db.notes[id].owner == caller && db.notes[id].deletedAt.None?)
  {
    OnlyOwnerMay(db, caller, id, Action.Restore);
  }

  lemma OnlyOwnerMay(db: Db, caller: Uuid, id: Uuid, action: Action)
    requires action.Delete? || action.Restore?
    ensures Load(Tick(db), caller, id, action).Ok? <==>
            id in db.notes && db.notes[id].owner == caller && (db.notes[id].deletedAt.None? || action.Restore?)
    ensures Load(Tick(db), caller, id, action).Ok? ==>
              Load(Tick(db), caller, id, action).value == Loaded(db.notes[id], ROLE_OWNER)
    ensures Load(Tick(db), caller, id, action).Err? ==> Load(Tick(db), caller, id, action).error != 409
  {
    LoadDecides(Tick(db), caller, id, action);
    if id in db.notes && db.notes[id].owner != caller {
      RoleIsStrongestGrant(Tick(db), caller, id, ROLE_OWNER);
    }
  }

  /** The owner of a live note can delete it and restore it, nobody else can do both, and the two give
      it back as it was but for its version and its time, with every grant on it. */
  lemma RestoreUndoesDelete(db: Db, caller: Uuid, id: Uuid, f: Faults, g: Faults)
    ensures var deletion := Notes.Delete(db, caller, id, f);
            var restoration := Notes.Restore(deletion.db, caller, id, g);
            && (deletion.reply == Done(204) && restoration.reply.Sent? <==>
                  && id in db.notes && db.notes[id].owner == caller && db.notes[id].deletedAt.None?
                  && 0 !in f && 0 !in g && db.notes[id].version + 2 <= MAX_VERSION)
            && (deletion.reply == Done(204) && restoration.reply.Sent? ==>
                  Returned(db, restoration.db, id)
                  && forall u: Uuid :: RoleOn(restoration.db, u, id) == RoleOn(db, u, id))
  {
    var deletion := Notes.Delete(db, caller, id, f);
    var restoration := Notes.Restore(deletion.db, caller, id, g);
    DeletionAcceptedWhen(db, caller, id, f);
    RestorationAcceptedWhen(deletion.db, caller, id, g);
    if deletion.reply == Done(204) && restoration.reply.Sent? {
      assert restoration.db == db.(notes := restoration.db.notes, now := db.now + 2);
      forall u: Uuid
        ensures RoleOn(restoration.db, u, id) == RoleOn(db, u, id)
      {
        assert MatchingRanks(restoration.db, u, id) == MatchingRanks(db, u, id);
      }
    }
  }

  /** Every table is as it was, but for two versions and the time of the note. */
  predicate Returned(db: Db, after: Db, id: Uuid)
    requires id in db.notes
  {
    && after.notes == db.notes[id := db.notes[id].(version := db.notes[id].version + 2, updatedAt := after.now)]
    && after == db.(notes := after.notes, now := db.now + 2)
  }

  /** A view of a live note as it stands opens the way to a patch: under the entity tag of its version
      an acceptable one is accepted from anyone who may edit. */
  lemma TagOfViewIsAccepted(cfg: Config, db: Db, caller: Uuid, view: NoteView, patch: Sql.Patch)
    requires view.id in db.notes && view.note == db.notes[view.id] && view.note.deletedAt.None?
    requires RoleOn(db, caller, view.id) >= ROLE_EDITOR && Acceptable(cfg, db, view.id, patch)
    requires 1 <= view.note.version < MAX_VERSION
    ensures var r := Notes.Update(cfg, db, caller, view.id, ETags.SetETag(view.note.version), patch, {});
            r.reply.Sent? && r.reply.view.note.version == view.note.version + 1
  {
    ETags.IfMatchInvertsETag(view.note.version);
    UpdateAcceptedWhen(cfg, db, caller, view.id, ETags.SetETag(view.note.version), patch, {});
  }

  /** A restoration sends the note as it has become: live, of the next version, and for its owner. */
  lemma RestorationSendsRestored(db: Db, caller: Uuid, id: Uuid, faults: Faults)
    requires Notes.Restore(db, caller, id, faults).reply.Sent?
    ensures var r := Notes.Restore(db, caller, id, faults);
            && id in db.notes && id in r.db.notes
            && r.reply == Sent(200, NoteView(id, r.db.notes[id], ROLE_OWNER))
            && r.db.notes[id] ==
                 db.notes[id].(deletedAt := None, version := db.notes[id].version + 1, updatedAt := db.now + 1)
            && r.db == Tick(db).(notes := db.notes[id := r.db.notes[id]])
  {
    RestorationAcceptedWhen(db, caller, id, faults);
    OnlyOwnerMay(db, caller, id, Action.Restore);
  }

  /** So the owner can go on with the tag of that reply, provided nobody writes in between. */
  lemma PatchAfterRestoration(cfg: Config, db: Db, caller: Uuid, id: Uuid, faults: Faults, patch: Sql.Patch)
    requires NotesOk(db) && Notes.Restore(db, caller, id, faults).reply.Sent?
    requires var r := Notes.Restore(db, caller, id, faults);
             r.reply.view.note.version < MAX_VERSION && Acceptable(cfg, r.db, id, patch)
    ensures var r := Notes.Restore(db, caller, id, faults);
            var again := Notes.Update(cfg, r.db, caller, id, ETags.SetETag(r.reply.view.note.version), patch, {});
            again.reply.Sent? && again.reply.view.note.version == db.notes[id].version + 2
  {
    var r := Notes.Restore(db, caller, id, faults);
    RestorationAcceptedWhen(db, caller, id, faults);
    RestorationSendsRestored(db, caller, id, faults);
    TagOfViewIsAccepted(cfg, r.db, caller, r.reply.view, patch);
  }

  /** The same holds of what a read, a creation or an update has sent. */
  lemma PatchAfterRead(cfg: Config, db: Db, caller: Uuid, id: Uuid, patch: Sql.Patch)
    requires NotesOk(db) && Notes.Get(db, caller, id).Sent?
    requires RoleOn(db, caller, id) >= ROLE_EDITOR && Acceptable(cfg, db, id, patch)
    requires Notes.Get(db, caller, id).view.note.version < MAX_VERSION
    ensures var tag := ETags.SetETag(Notes.Get(db, caller, id).view.note.version);
            Notes.Update(cfg, db, caller, id, tag, patch, {}).reply.Sent?
  {
    LoadDecides(db, caller, id, Action.Read);
    TagOfViewIsAccepted(cfg, db, caller, Notes.Get(db, caller, id).view, patch);
  }

  lemma PatchAfterUpdate(cfg: Config, db: Db, caller: Uuid, id: Uuid, ifMatch: string, p: Sql.Patch, faults: Faults,
                         q: Sql.Patch)
    requires NotesOk(db) && Notes.Update(cfg, db, caller, id, ifMatch, p, faults).reply.Sent?
    requires var r := Notes.Update(cfg, db, caller, id, ifMatch, p, faults);
             r.reply.view.note.version < MAX_VERSION && Acceptable(cfg, r.db, id, q)
    ensures var r := Notes.Update(cfg, db, caller, id, ifMatch, p, faults);
            Notes.Update(cfg, r.db, caller, id, ETags.SetETag(r.reply.view.note.version), q, {}).reply.Sent?
  {
    UpdateAcceptedWhen(cfg, db, caller, id, ifMatch, p, faults);
    var r := Notes.Update(cfg, db, caller, id, ifMatch, p, faults);
    NoteDoesNotDecide(cfg, db, r.db, caller, id, ifMatch, p, faults);
    TagOfViewIsAccepted(cfg, r.db, caller, r.reply.view, q);
  }
}
