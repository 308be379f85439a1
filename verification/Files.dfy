/** How an upload, the text that refers to it and its deletion constrain one another
    (internal/notes/attachments.go). */
module Files {
  import opened Wrappers
  import opened Uuids
  import opened Schema
  import opened Authz
  import opened Access
  import opened Replies
  import opened Machine
  import opened Effects
  import Sql
  import Notes
  import Attachments
  import References
  import Grants
  import Integrity

  /** A stored object of a size that is accepted. */
  predicate Uploaded(cfg: Config, db: Db, key: string) {
    key in db.objects && 0 < db.objects[key].size <= cfg.maxBytes
  }

  /** A reservation is made exactly when the caller may edit the live note, the name is not empty and
      the announced size and type are accepted; the row waits for its bytes, and nothing is ready by it. */
  lemma ReservationAcceptedWhen(cfg: Config, db: Db, caller: Uuid, note: Uuid, id: Uuid, key: string,
                                filename: string, mimeType: string, size: int, faults: Faults)
    requires id !in db.attachments && caller in db.users && !Attachments.KeyTaken(db.attachments, key)
    ensures var r := Answer(cfg, db, Step.Reserve(caller, note, id, key, filename, mimeType, size), faults);
            && (id in r.db.attachments <==>
                  && RoleOn(db, caller, note) >= ROLE_EDITOR && db.notes[note].deletedAt.None?
                  && filename != "" && 0 < size <= cfg.maxBytes && cfg.mimeAllowed(mimeType) && 0 !in faults)
            && (id in r.db.attachments ==>
                  && Attachments.Belongs(r.db.attachments, id, note) && r.db.attachments[id].status.Pending?
                  && r.db.attachments[id] ==
                       Attachment(note, key, filename, mimeType, size, None, Pending, caller, db.now + 1, None)
                  && r.db == Tick(db).(attachments := db.attachments[id := r.db.attachments[id]]))
            && (r.reply.File? <==> id in r.db.attachments && 1 !in faults)
            && (r.reply.File? ==> r.reply == File(201, id, r.db.attachments[id]))
            && (id !in r.db.attachments ==> r.db == Tick(db))
  {
    Grants.TickKeepsLoad(db, caller, note, AddAttachment);
    LoadDecides(db, caller, note, AddAttachment);
  }

  /** Completing makes an attachment ready exactly when the caller may edit the live note it belongs
      to and what was stored under its key is of an accepted size; the row then carries the size and
      checksum of the stored object, whatever was announced. */
  lemma CompletionAcceptedWhen(cfg: Config, db: Db, caller: Uuid, note: Uuid, id: Uuid, faults: Faults)
    requires id in db.attachments && db.attachments[id].status.Pending?
    ensures var r := Attachments.Complete(cfg, db, caller, note, id, faults);
            var key := db.attachments[id].objectKey;
            && id in r.db.attachments
            && (r.db.attachments[id].status.Ready? <==>
                  && RoleOn(db, caller, note) >= ROLE_EDITOR && db.notes[note].deletedAt.None?
                  && db.attachments[id].note == note && Uploaded(cfg, db, key) && 0 !in faults && 1 !in faults)
            && (r.db.attachments[id].status.Ready? ==>
                  && r.reply == File(200, id, r.db.attachments[id])
                  && r.db.attachments[id] == db.attachments[id].(
                       status := Ready, readyAt := Some(db.now + 1),
                       size := db.objects[key].size, checksum := Some(db.objects[key].etag))
                  && r.db == Tick(db).(attachments := db.attachments[id := r.db.attachments[id]]))
            && (r.db.attachments[id].status.Pending? ==>
                  r.db.attachments == db.attachments
                      && (r.db.objects == db.objects || r.db.objects == db.objects - {key}))
  {
    Grants.TickKeepsLoad(db, caller, note, AddAttachment);
    LoadDecides(db, caller, note, AddAttachment);
  }

  /** Completing again answers the same and changes nothing, even after other bytes were stored. */
  lemma CompletionIsIdempotent(cfg: Config, db: Db, caller: Uuid, note: Uuid, id: Uuid, faults: Faults,
                      again: Faults, info: ObjectInfo)
    requires Attachments.Complete(cfg, db, caller, note, id, faults).reply.File?
    ensures var done := Attachments.Complete(cfg, db, caller, note, id, faults);
            var put := Attachments.Put(done.db, done.reply.row.objectKey, info).db;
            Attachments.Complete(cfg, put, caller, note, id, again) == Response(Tick(put), done.reply)
  {
    var done := Attachments.Complete(cfg, db, caller, note, id, faults);
    var put := Attachments.Put(done.db, done.reply.row.objectKey, info).db;
    CompletedIsReady(cfg, db, caller, note, id, faults);
    SameRoleAfterFiles(db, put, caller, note);
    LoadDecides(db, caller, note, AddAttachment);
    LoadDecides(put, caller, note, AddAttachment);
    ReadyIsSent(cfg, put, caller, note, id, again);
  }

  /** A completion that sends a row sends the ready one. */
  lemma CompletedIsReady(cfg: Config, db: Db, caller: Uuid, note: Uuid, id: Uuid, faults: Faults)
    requires Attachments.Complete(cfg, db, caller, note, id, faults).reply.File?
    ensures var done := Attachments.Complete(cfg, db, caller, note, id, faults);
            && Attachments.Belongs(done.db.attachments, id, note) && done.db.attachments[id].status.Ready?
            && done.reply == File(200, id, done.db.attachments[id])
            && done.db.notes == db.notes && done.db.shares == db.shares && done.db.members == db.members
            && Load(db, caller, note, AddAttachment).Ok?
  {
    Grants.TickKeepsLoad(db, caller, note, AddAttachment);
  }

  lemma ReadyIsSent(cfg: Config, db: Db, caller: Uuid, note: Uuid, id: Uuid, faults: Faults)
    requires Attachments.Belongs(db.attachments, id, note) && db.attachments[id].status.Ready?
    requires Load(db, caller, note, AddAttachment).Ok?
    ensures Attachments.Complete(cfg, db, caller, note, id, faults)
         == Response(Tick(db), File(200, id, db.attachments[id]))
  {
    Grants.TickKeepsLoad(db, caller, note, AddAttachment);
  }

  /** An attachment is deleted exactly when the caller may edit its live note, the note's text does
      not refer to it, and its row can be deleted; the object follows unless that fails. */
  lemma RemovalAcceptedWhen(db: Db, caller: Uuid, note: Uuid, id: Uuid, faults: Faults)
    ensures var r := Attachments.Remove(db, caller, note, id, faults);
            && (r.reply == Done(204) <==>
                  && RoleOn(db, caller, note) >= ROLE_EDITOR && db.notes[note].deletedAt.None?
                  && Attachments.Belongs(db.attachments, id, note)
                  && id !in References.Referenced(db.notes[note].body) && 0 !in faults)
            && (r.reply == Done(204) ==>
                  && r.db.attachments == db.attachments - {id}
                  && r.db.objects == if 1 in faults then db.objects else db.objects - {db.attachments[id].objectKey})
            && (r.reply != Done(204) ==> r.db == Tick(db))
  {
    Grants.TickKeepsLoad(db, caller, note, RemoveAttachment);
    LoadDecides(db, caller, note, RemoveAttachment);
  }

  /** A body that shows attachments as Markdown images is usable exactly when each of them is a ready attachment of the
      same note: no more is found in it, and nothing is missed. */
  lemma ShownFilesDecide(attachments: map<Uuid, Attachment>, note: Uuid, images: seq<References.Image>)
    requires forall m | m in images :: ':' !in m.alt && InRange(m.id)
    ensures Notes.ReferencesUsable(attachments, note, References.Render(images)) <==>
            forall m | m in images ::
              m.id in attachments && attachments[m.id].note == note && attachments[m.id].status.Ready?
  {
    References.ScanInvertsRender(images);
    var found := References.Referenced(References.Render(images));
    assert found == set m | m in images :: m.id;
    assert forall m | m in images :: m.id in found;
  }

  /** Once a text shows an attachment, nobody deletes that attachment while the text stands. */
  lemma ShownFileStays(cfg: Config, db: Db, editor: Uuid, note: Uuid, ifMatch: string, patch: Sql.Patch, faults: Faults,
                       images: seq<References.Image>, m: References.Image, caller: Uuid, later: Faults)
    requires forall i | i in images :: ':' !in i.alt && InRange(i.id)
    requires m in images && patch.body == Some(References.Render(images))
    requires Notes.Update(cfg, db, editor, note, ifMatch, patch, faults).reply.Sent?
    ensures var shown := Notes.Update(cfg, db, editor, note, ifMatch, patch, faults).db;
            var r := Attachments.Remove(shown, caller, note, m.id, later);
            && r.db == Tick(shown)
            && Attachments.Belongs(shown.attachments, m.id, note)
            && (r.reply == Refused(409) <==> RoleOn(shown, caller, note) >= ROLE_EDITOR)
  {
    References.ScanInvertsRender(images);
    ShownFilesDecide(db.attachments, note, images);
    var shown := Notes.Update(cfg, db, editor, note, ifMatch, patch, faults).db;
    SavedBodyStands(cfg, db, editor, note, ifMatch, patch, faults);
    assert m.id in References.Referenced(shown.notes[note].body);
    NamedFileStays(shown, note, m.id, caller, later);
  }

  lemma SavedBodyStands(cfg: Config, db: Db, editor: Uuid, note: Uuid, ifMatch: string, patch: Sql.Patch,
                      faults: Faults)
    requires patch.body.Some? && Notes.Update(cfg, db, editor, note, ifMatch, patch, faults).reply.Sent?
    ensures var saved := Notes.Update(cfg, db, editor, note, ifMatch, patch, faults).db;
            && note in saved.notes && saved.notes[note].body == patch.body.value && saved.notes[note].deletedAt.None?
            && saved.attachments == db.attachments && Notes.ReferencesUsable(db.attachments, note, patch.body.value)
  {
  }

  /** Nobody deletes an attachment that the text of a live note names. */
  lemma NamedFileStays(db: Db, note: Uuid, id: Uuid, caller: Uuid, faults: Faults)
    requires note in db.notes && db.notes[note].deletedAt.None? && id in References.Referenced(db.notes[note].body)
    requires Attachments.Belongs(db.attachments, id, note)
    ensures var r := Attachments.Remove(db, caller, note, id, faults);
            r.db == Tick(db) && (r.reply == Refused(409) <==> RoleOn(db, caller, note) >= ROLE_EDITOR)
  {
    RemovalAcceptedWhen(db, caller, note, id, faults);
    Grants.TickKeepsLoad(db, caller, note, RemoveAttachment);
    LoadDecides(db, caller, note, RemoveAttachment);
  }

  /** The object is stored, and no row leads to it. */
  predicate Orphaned(db: Db, key: string) {
    key in db.objects && forall a | a in db.attachments :: db.attachments[a].objectKey != key
  }

  lemma {:induction false} SweepKeepsOrphan(d: Db, rows: seq<Uuid>, i: nat, faults: Faults, key: string)
    requires i <= |rows| && Orphaned(d, key)
    ensures Orphaned(Attachments.SweepFrom(d, rows, i, faults), key)
    decreases |rows| - i
  {
    if i < |rows| {
      SweepKeepsOrphan(Attachments.SweepOne(d, rows[i], i, faults), rows, i + 1, faults, key);
    }
  }

  lemma EffectKeepsOrphan(cfg: Config, d: Db, actor: Option<Uuid>, eff: Effect, key: string)
    requires Allowed(cfg, d, actor, eff) && Orphaned(d, key)
    requires eff.FileAdded? ==> eff.row.objectKey != key
    ensures Orphaned(Apply(d, eff), key)
  {
    if eff.Swept? {
      SweepKeepsOrphan(d, eff.rows, 0, eff.faults, key);
    } else if !Integrity.OnFiles(eff) {
      Integrity.OtherEffectsKeepFiles(cfg, d, actor, eff);
    }
  }

  /** The step reserves the key for a new attachment. */
  predicate Takes(e: Event, key: string) {
    e.Event? && e.step.Reserve? && e.step.key == key
  }

  lemma {:induction false} RunKeepsOrphan(cfg: Config, db: Db, events: seq<Event>, key: string)
    requires Run(cfg, db, events) && Orphaned(db, key)
    requires forall i | 0 <= i < |events| :: !Takes(events[i], key)
    ensures Orphaned(After(cfg, db, events), key)
    decreases |events|
  {
    if events != [] {
      var eff := EventHasEffect(cfg, db, events[0]);
      assert !Takes(events[0], key) && Orphaned(Tick(db), key);
      EffectKeepsOrphan(cfg, Tick(db), Actor(events[0]), eff, key);
      assert forall i | 0 <= i < |events[1..]| :: events[1..][i] == events[i + 1];
      RunKeepsOrphan(cfg, Next(cfg, db, events[0]), events[1..], key);
    }
  }

  /** An object whose row was deleted while its own deletion failed stays for good: over every run in
      which the key is not reserved again, sweeps included, it is still stored and no row leads to it. */
  lemma OrphanOutlivesSweep(cfg: Config, db: Db, caller: Uuid, note: Uuid, id: Uuid, events: seq<Event>)
    requires Integrity.AttachmentsOk(cfg, db) && id in db.attachments && db.attachments[id].objectKey in db.objects
    requires Attachments.Remove(db, caller, note, id, {1}).reply == Done(204)
    requires Run(cfg, Attachments.Remove(db, caller, note, id, {1}).db, events)
    requires forall i | 0 <= i < |events| :: !Takes(events[i], db.attachments[id].objectKey)
    ensures Orphaned(After(cfg, Attachments.Remove(db, caller, note, id, {1}).db, events), db.attachments[id].objectKey)
  {
    RemovalAcceptedWhen(db, caller, note, id, {1});
    RunKeepsOrphan(cfg, Attachments.Remove(db, caller, note, id, {1}).db, events, db.attachments[id].objectKey);
  }

  predicate DistinctRows(rows: seq<Uuid>) {
    forall i, j | 0 <= i < j < |rows| :: rows[i] != rows[j]
  }

  /** The sweep does not touch the row, and the object is under no key it meets from row `i` on. */
  predicate NotListed(rows: seq<Uuid>, i: nat, a: Uuid) {
    forall k | i <= k < |rows| :: rows[k] != a
  }

  predicate KeyNotListed(d: Db, rows: seq<Uuid>, i: nat, key: string)
    requires forall k | i <= k < |rows| :: rows[k] in d.attachments
  {
    forall k | i <= k < |rows| :: d.attachments[rows[k]].objectKey != key
  }

  /** What the sweep leaves of the rows from `i` on, and of everything else. */
  ghost predicate SweptFrom(d: Db, s: Db, rows: seq<Uuid>, i: nat, faults: Faults)
    requires forall k | i <= k < |rows| :: rows[k] in d.attachments
  {
    && s == d.(attachments := s.attachments, objects := s.objects)
    && (forall k | i <= k < |rows| ::
          var key := d.attachments[rows[k]].objectKey;
          && (key in s.objects <==> key in d.objects && 2 * k in faults)
          && (rows[k] in s.attachments <==> 2 * k in faults || 2 * k + 1 in faults))
    && (forall a | a in d.attachments && NotListed(rows, i, a) :: a in s.attachments)
    && (forall a | a in s.attachments :: a in d.attachments && s.attachments[a] == d.attachments[a])
    && (forall key | key in d.objects && KeyNotListed(d, rows, i, key) :: key in s.objects)
    && (forall key | key in s.objects :: key in d.objects && s.objects[key] == d.objects[key])
  }

  lemma {:induction false} SweepFromDoes(d: Db, rows: seq<Uuid>, i: nat, faults: Faults)
    requires i <= |rows| && DistinctRows(rows) && Integrity.KeysDistinct(d.attachments)
    requires forall k | i <= k < |rows| :: rows[k] in d.attachments
    ensures SweptFrom(d, Attachments.SweepFrom(d, rows, i, faults), rows, i, faults)
    decreases |rows| - i
  {
    if i < |rows| {
      var next := Attachments.SweepOne(d, rows[i], i, faults);
      OneRowIsSwept(d, rows, i, faults);
      SweepFromDoes(next, rows, i + 1, faults);
      SweptOn(d, next, Attachments.SweepFrom(next, rows, i + 1, faults), rows, i, faults);
    }
  }

  /** One pass of the loop: the object goes unless its call fails, then the row unless its call fails. */
  ghost predicate OneSwept(d: Db, next: Db, rows: seq<Uuid>, i: nat, faults: Faults)
    requires i < |rows| && rows[i] in d.attachments
  {
    var key := d.attachments[rows[i]].objectKey;
    && next.objects == (if 2 * i in faults then d.objects else d.objects - {key})
    && next.attachments == (if 2 * i in faults || 2 * i + 1 in faults then d.attachments else d.attachments - {rows[i]})
    && next == d.(attachments := next.attachments, objects := next.objects)
  }

  lemma OneRowIsSwept(d: Db, rows: seq<Uuid>, i: nat, faults: Faults)
    requires i < |rows| && rows[i] in d.attachments && DistinctRows(rows) && Integrity.KeysDistinct(d.attachments)
    requires forall k | i <= k < |rows| :: rows[k] in d.attachments
    ensures var next := Attachments.SweepOne(d, rows[i], i, faults);
            && OneSwept(d, next, rows, i, faults) && Integrity.KeysDistinct(next.attachments)
            && (forall k | i < k < |rows| :: rows[k] in next.attachments)
  {
  }

  /** One pass, and then the rest of the loop. */
  ghost predicate PassAndRest(d: Db, next: Db, s: Db, rows: seq<Uuid>, i: nat, faults: Faults) {
    && i < |rows| && DistinctRows(rows) && Integrity.KeysDistinct(d.attachments)
    && (forall k | i <= k < |rows| :: rows[k] in d.attachments)
    && OneSwept(d, next, rows, i, faults)
    && (forall k | i < k < |rows| :: rows[k] in next.attachments)
    && SweptFrom(next, s, rows, i + 1, faults)
  }

  lemma PassedRowOn(d: Db, next: Db, s: Db, rows: seq<Uuid>, i: nat, faults: Faults)
    requires PassAndRest(d, next, s, rows, i, faults)
    ensures var key := d.attachments[rows[i]].objectKey;
            && (key in s.objects <==> key in d.objects && 2 * i in faults)
            && (rows[i] in s.attachments <==> 2 * i in faults || 2 * i + 1 in faults)
  {
    var mine := d.attachments[rows[i]].objectKey;
    assert forall k | i < k < |rows| :: rows[k] != rows[i] && d.attachments[rows[k]].objectKey != mine;
    assert KeyNotListed(next, rows, i + 1, mine);
    assert NotListed(rows, i + 1, rows[i]);
  }

  lemma LaterRowOn(d: Db, next: Db, s: Db, rows: seq<Uuid>, i: nat, faults: Faults, k: nat)
    requires PassAndRest(d, next, s, rows, i, faults) && i < k < |rows|
    ensures var key := d.attachments[rows[k]].objectKey;
            && (key in s.objects <==> key in d.objects && 2 * k in faults)
            && (rows[k] in s.attachments <==> 2 * k in faults || 2 * k + 1 in faults)
  {
    assert rows[k] != rows[i] && d.attachments[rows[k]].objectKey != d.attachments[rows[i]].objectKey;
    assert next.attachments[rows[k]] == d.attachments[rows[k]];
  }

  lemma OthersOn(d: Db, next: Db, s: Db, rows: seq<Uuid>, i: nat, faults: Faults)
    requires PassAndRest(d, next, s, rows, i, faults)
    ensures forall a | a in d.attachments && NotListed(rows, i, a) :: a in s.attachments
    ensures forall key | key in d.objects && KeyNotListed(d, rows, i, key) :: key in s.objects
  {
    forall a | a in d.attachments && NotListed(rows, i, a)
      ensures a in s.attachments
    {
      assert a != rows[i] && NotListed(rows, i + 1, a);
    }
    forall key | key in d.objects && KeyNotListed(d, rows, i, key)
      ensures key in s.objects
    {
      assert key != d.attachments[rows[i]].objectKey && KeyNotListed(next, rows, i + 1, key);
    }
  }

  lemma SweptOn(d: Db, next: Db, s: Db, rows: seq<Uuid>, i: nat, faults: Faults)
    requires PassAndRest(d, next, s, rows, i, faults)
    ensures SweptFrom(d, s, rows, i, faults)
  {
    PassedRowOn(d, next, s, rows, i, faults);
    forall k | i < k < |rows|
      ensures var key := d.attachments[rows[k]].objectKey;
              && (key in s.objects <==> key in d.objects && 2 * k in faults)
              && (rows[k] in s.attachments <==> 2 * k in faults || 2 * k + 1 in faults)
    {
      LaterRowOn(d, next, s, rows, i, faults, k);
    }
    OthersOn(d, next, s, rows, i, faults);
  }

  /** What a sweep does, failures included: the object of a listed row is gone unless deleting it
      failed, the row is gone unless either of its calls failed, and every other row, object and table
      is as before. */
  lemma SweepDoes(db: Db, cutoff: int, limit: nat, rows: seq<Uuid>, faults: Faults)
    requires Sql.StaleListing(db.attachments, cutoff, limit, rows) && Integrity.KeysDistinct(db.attachments)
    ensures var s := Attachments.Sweep(db, rows, faults);
            && s == db.(attachments := s.attachments, objects := s.objects, now := db.now + 1)
            && (forall i | 0 <= i < |rows| ::
                  var key := db.attachments[rows[i]].objectKey;
                  && (key in s.objects <==> key in db.objects && 2 * i in faults)
                  && (rows[i] in s.attachments <==> 2 * i in faults || 2 * i + 1 in faults))
            && (forall a | a in db.attachments && a !in rows :: a in s.attachments)
            && (forall a | a in s.attachments :: a in db.attachments && s.attachments[a] == db.attachments[a])
            && (forall key | key in db.objects ::
                  (forall i | 0 <= i < |rows| :: db.attachments[rows[i]].objectKey != key) ==> key in s.objects)
            && (forall key | key in s.objects :: key in db.objects && s.objects[key] == db.objects[key])
  {
    var d := Tick(db);
    SweepFromDoes(d, rows, 0, faults);
    assert forall a | a in db.attachments && a !in rows :: NotListed(rows, 0, a);
    assert forall key ::
        (forall i | 0 <= i < |rows| :: db.attachments[rows[i]].objectKey != key) ==> KeyNotListed(d, rows, 0, key);
  }

  /** A sweep without failures leaves nothing of what it listed. */
  lemma CleanSweepLeavesNothing(db: Db, cutoff: int, limit: nat, rows: seq<Uuid>)
    requires Sql.StaleListing(db.attachments, cutoff, limit, rows) && Integrity.KeysDistinct(db.attachments)
    ensures var s := Attachments.Sweep(db, rows, {});
            forall i | 0 <= i < |rows| ::
              rows[i] !in s.attachments && db.attachments[rows[i]].objectKey !in s.objects
  {
    SweepDoes(db, cutoff, limit, rows, {});
  }

  /** Reserving, storing the bytes and completing gives a ready attachment of the size and checksum that
      were stored, which the list of the note shows and its text may refer to. */
  lemma UploadIsCompleted(cfg: Config, db: Db, caller: Uuid, note: Uuid, id: Uuid, key: string, filename: string,
                          mimeType: string, size: int, info: ObjectInfo)
    requires Attachments.Reserve(cfg, db, caller, note, id, key, filename, mimeType, size, {}).reply.File?
    requires 0 < info.size <= cfg.maxBytes
    ensures var reserved := Attachments.Reserve(cfg, db, caller, note, id, key, filename, mimeType, size, {}).db;
            var stored := Attachments.Put(reserved, key, info).db;
            var r := Attachments.Complete(cfg, stored, caller, note, id, {});
            && r.reply == File(200, id, Attachment(note, key, filename, mimeType, info.size, Some(info.etag), Ready,
                                                   caller, db.now + 1, Some(db.now + 3)))
            && stored.objects == db.objects[key := info]
            && Attachments.List(r.db, caller, note).Ok? && id in Attachments.List(r.db, caller, note).value
  {
    ReservationIsStored(cfg, db, caller, note, id, key, filename, mimeType, size);
    var reserved := Attachments.Reserve(cfg, db, caller, note, id, key, filename, mimeType, size, {}).db;
    var stored := Attachments.Put(reserved, key, info).db;
    SameRoleAfterFiles(db, stored, caller, note);
    StoredIsCompleted(cfg, stored, caller, note, id);
  }

  lemma ReservationIsStored(cfg: Config, db: Db, caller: Uuid, note: Uuid, id: Uuid, key: string, filename: string,
                            mimeType: string, size: int)
    requires Attachments.Reserve(cfg, db, caller, note, id, key, filename, mimeType, size, {}).reply.File?
    ensures var row := Attachment(note, key, filename, mimeType, size, None, Pending, caller, db.now + 1, None);
            Attachments.Reserve(cfg, db, caller, note, id, key, filename, mimeType, size, {}).db
            == Tick(db).(attachments := db.attachments[id := row])
    ensures RoleOn(db, caller, note) >= ROLE_EDITOR && db.notes[note].deletedAt.None?
  {
    Grants.TickKeepsLoad(db, caller, note, AddAttachment);
    LoadDecides(db, caller, note, AddAttachment);
  }

  lemma StoredIsCompleted(cfg: Config, db: Db, caller: Uuid, note: Uuid, id: Uuid)
    requires RoleOn(db, caller, note) >= ROLE_EDITOR && db.notes[note].deletedAt.None?
    requires Attachments.Belongs(db.attachments, id, note) && db.attachments[id].status.Pending?
    requires Uploaded(cfg, db, db.attachments[id].objectKey)
    ensures var info := db.objects[db.attachments[id].objectKey];
            var r := Attachments.Complete(cfg, db, caller, note, id, {});
            && r.reply == File(200, id, db.attachments[id].(status := Ready, readyAt := Some(db.now + 1),
                                                            size := info.size, checksum := Some(info.etag)))
            && Attachments.List(r.db, caller, note).Ok? && id in Attachments.List(r.db, caller, note).value
  {
    CompletionAcceptedWhen(cfg, db, caller, note, id, {});
    var done := Attachments.Complete(cfg, db, caller, note, id, {}).db;
    SameRoleAfterFiles(db, done, caller, note);
    LoadDecides(done, caller, note, DownloadAttachment);
  }

  lemma SameRoleAfterFiles(db: Db, next: Db, user: Uuid, note: Uuid)
    requires next.notes == db.notes && next.shares == db.shares && next.members == db.members
    ensures RoleOn(next, user, note) == RoleOn(db, user, note)
  {
    assert MatchingRanks(next, user, note) == MatchingRanks(db, user, note);
  }

  /** What a sweep lists: rows that wait since before the cutoff, the oldest first, and all of them if
      the limit allows. */
  lemma ListedAreOldest(attachments: map<Uuid, Attachment>, cutoff: int, limit: nat, rows: seq<Uuid>)
    requires Sql.StaleListing(attachments, cutoff, limit, rows)
    ensures |rows| <= limit
    ensures forall r | r in rows ::
              r in attachments && attachments[r].status == Pending && attachments[r].createdAt < cutoff
    ensures forall i, j | 0 <= i < j < |rows| :: attachments[rows[i]].createdAt <= attachments[rows[j]].createdAt
    ensures forall a | a in attachments && attachments[a].status == Pending && attachments[a].createdAt < cutoff ::
              || a in rows
              || (|rows| == limit && forall r | r in rows :: attachments[r].createdAt <= attachments[a].createdAt)
  {
    assert forall a | a in attachments && attachments[a].status == Pending && attachments[a].createdAt < cutoff ::
        Sql.Stale(attachments, a, cutoff);
    forall r | r in rows
      ensures Sql.Stale(attachments, r, cutoff)
    {
      var i :| 0 <= i < |rows| && rows[i] == r;
    }
  }
}
