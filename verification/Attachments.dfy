/** The attachment handlers (internal/notes/attachments.go) and the sweep (cmd/sweep/main.go). */
module Attachments {
  import opened Wrappers
  import opened Uuids
  import opened Schema
  import opened Authz
  import opened Access
  import opened Replies
  import Sql
  import References

  /** `attachments.object_key` is unique. */
  predicate KeyTaken(attachments: map<Uuid, Attachment>, key: string) {
    exists a | a in attachments :: attachments[a].objectKey == key
  }

  /** `createAttachment`. Call 0 inserts the row; call 1 signs the upload, and the row stays when it fails. */
  function Reserve(cfg: Config, db: Db, caller: Uuid, note: Uuid, id: Uuid, key: string,
                   filename: string, mimeType: string, size: int, faults: Faults): Response
  {
    var d := Tick(db);
    match Load(d, caller, note, AddAttachment)
    case Err(status) => Response(d, Refused(status))
    case Ok(_) =>
      if filename == "" || size <= 0 || size > cfg.maxBytes || !cfg.mimeAllowed(mimeType) then Response(d, Refused(400))
      else if 0 in faults || id in d.attachments || KeyTaken(d.attachments, key) || caller !in d.users then
        Response(d, Refused(500))
      else
        var row := Attachment(note, key, filename, mimeType, size, None, Pending, caller, d.now, None);
        Response(d.(attachments := d.attachments[id := row]), if 1 in faults then Refused(500) else File(201, id, row))
  }

  /** `loadAttachment`. */
  predicate Belongs(attachments: map<Uuid, Attachment>, id: Uuid, note: Uuid) {
    id in attachments && attachments[id].note == note
  }

  /** `completeAttachment`. Call 0 is `Stat`; call 1 discards an oversized object or marks the row. */
  function Complete(cfg: Config, db: Db, caller: Uuid, note: Uuid, id: Uuid, faults: Faults): Response {
    var d := Tick(db);
    match Load(d, caller, note, AddAttachment)
    case Err(status) => Response(d, Refused(status))
    case Ok(_) =>
      if !Belongs(d.attachments, id, note) then Response(d, Refused(404))
      else
        var row := d.attachments[id];
        if row.status.Ready? then Response(d, File(200, id, row))
        else if 0 in faults then Response(d, Refused(500))
        else if row.objectKey !in d.objects then Response(d, Refused(409))
        else
          var info := d.objects[row.objectKey];
          if info.size > cfg.maxBytes then
            Response(if 1 in faults then d else d.(objects := d.objects - {row.objectKey}), Refused(413))
          else if 1 in faults || info.size <= 0 then Response(d, Refused(500))
          else
            var ready := Sql.Completed(row, info.size, info.etag, d.now);
            Response(d.(attachments := d.attachments[id := ready]), File(200, id, ready))
  }

  /** `deleteAttachment`. Call 0 deletes the row, call 1 the object; losing the object alone is no error. */
  function Remove(db: Db, caller: Uuid, note: Uuid, id: Uuid, faults: Faults): Response {
    var d := Tick(db);
    match Load(d, caller, note, RemoveAttachment)
    case Err(status) => Response(d, Refused(status))
    case Ok(loaded) =>
      if !Belongs(d.attachments, id, note) then Response(d, Refused(404))
      else if id in References.Referenced(loaded.note.body) then Response(d, Refused(409))
      else if 0 in faults then Response(d, Refused(500))
      else
        var key := d.attachments[id].objectKey;
        Response(d.(attachments := d.attachments - {id},
                    objects := if 1 in faults then d.objects else d.objects - {key}), Done(204))
  }

  /** A client writes bytes through an upload URL: any size, at any time, over any earlier object. */
  function Put(db: Db, key: string, info: ObjectInfo): Response {
    Response(Tick(db).(objects := db.objects[key := info]), Done(200))
  }

  /** The sweep's loop over the rows it listed. For row `i`, call `2 * i` deletes the object and
      call `2 * i + 1` the row; a failure leaves the rest of that row for the next run. */
  function SweepFrom(d: Db, rows: seq<Uuid>, i: nat, faults: Faults): Db
    requires i <= |rows|
    decreases |rows| - i
  {
    if i == |rows| then d else SweepFrom(SweepOne(d, rows[i], i, faults), rows, i + 1, faults)
  }

  function SweepOne(d: Db, id: Uuid, i: nat, faults: Faults): Db {
    if id !in d.attachments || 2 * i in faults then d
    else
      var swept := d.(objects := d.objects - {d.attachments[id].objectKey});
      if 2 * i + 1 in faults then swept else swept.(attachments := swept.attachments - {id})
  }

  function Sweep(db: Db, rows: seq<Uuid>, faults: Faults): Db {
    SweepFrom(Tick(db), rows, 0, faults)
  }

  /** `listAttachments`: the ready ones, leaving out their order and their signed URLs. */
  function List(db: Db, caller: Uuid, note: Uuid): Result<map<Uuid, Attachment>, nat> {
    match Load(db, caller, note, DownloadAttachment)
    case Err(status) => Err(status)
    case Ok(_) =>
      var rows := db.attachments;
      Ok(map a | a in rows && rows[a].note == note && rows[a].status.Ready? :: rows[a])
  }
}
