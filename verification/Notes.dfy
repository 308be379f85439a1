/** The note handlers (internal/notes/handler.go), one request at a time. */
module Notes {
  import opened Wrappers
  import opened Uuids
  import opened Schema
  import opened Authz
  import opened Access
  import opened Replies
  import Sql
  import Text
  import Tags
  import ETags
  import References

  const MAX_TITLE_LENGTH := 512

  predicate ValidTitle(title: string) {
    title != "" && Text.ByteLength(title) <= MAX_TITLE_LENGTH
  }

  function Create(cfg: Config, db: Db, caller: Uuid, id: Uuid, title: string, body: string, tags: seq<string>,
                  faults: Faults): Response {
    var d := Tick(db);
    var trimmed := Text.TrimSpace(title);
    match Tags.Normalized(tags, cfg.lower)
    case Err(_) => Response(d, Refused(400))
    case Ok(normalized) =>
      if !ValidTitle(trimmed) || References.Referenced(body) != {} then Response(d, Refused(400))
      else if 0 in faults || id in d.notes || caller !in d.users then Response(d, Refused(500))
      else
        var n := Sql.NewNote(caller, trimmed, body, normalized, d.now);
        Response(d.(notes := d.notes[id := n]), Sent(201, NoteView(id, n, ROLE_OWNER)))
  }

  /** The patch as it is written: its title trimmed and its tags normalised. */
  function CheckedPatch(p: Sql.Patch, lower: char -> char): Result<Sql.Patch, nat> {
    var title := if p.title.Some? then Some(Text.TrimSpace(p.title.value)) else None;
    var tags := if p.tags.Some? then Tags.Normalized(p.tags.value, lower) else Ok([]);
    if (title.Some? && !ValidTitle(title.value)) || tags.Err? then Err(400)
    else Ok(Sql.Patch(title, p.body, if p.tags.Some? then Some(tags.value) else None))
  }

  /** `validateBodyReferences`: every id the body names is a ready attachment of this note. */
  predicate ReferencesUsable(attachments: map<Uuid, Attachment>, note: Uuid, body: string) {
    forall id | id in References.Referenced(body) ::
      id in attachments && attachments[id].note == note && attachments[id].status.Ready?
  }

  /** What an update has when its checks are through. */
  datatype Admitted = Admitted(expected: int, patch: Sql.Patch, role: Role)

  /** The checks of an update, in their order; each failure has its status. */
  function Admit(cfg: Config, d: Db, caller: Uuid, id: Uuid, ifMatch: string, patch: Sql.Patch): Result<Admitted, nat> {
    match Load(d, caller, id, Action.Update)
    case Err(status) => Err(status)
    case Ok(loaded) =>
      match ETags.IfMatchVersion(ifMatch)
      case Err(PreconditionRequired) => Err(428)
      case Err(NotAVersion) => Err(400)
      case Ok(expected) =>
        match CheckedPatch(patch, cfg.lower)
        case Err(status) => Err(status)
        case Ok(checked) =>
          if checked.body.Some? && !ReferencesUsable(d.attachments, id, checked.body.value) then Err(400)
          else Ok(Admitted(expected, checked, loaded.role))
  }

  function Update(cfg: Config, db: Db, caller: Uuid, id: Uuid, ifMatch: string, patch: Sql.Patch,
                  faults: Faults): Response {
    var d := Tick(db);
    match Admit(cfg, d, caller, id, ifMatch, patch)
    case Err(status) => Response(d, Refused(status))
    case Ok(admitted) =>
      if 0 in faults then Response(d, Refused(500))
      else
        match Sql.UpdateNote(d.notes, id, admitted.expected, admitted.patch, d.now)
        case Wrote(n) => Response(d.(notes := d.notes[id := n]), Sent(200, NoteView(id, n, admitted.role)))
        case Overflow => Response(d, Refused(500))
        case NoRow => Response(d, ConflictReply(d, caller, id, admitted.expected))
  }

  /** `conflict`: a note that is gone or deleted is not found; otherwise its current state is sent. */
  function ConflictReply(db: Db, caller: Uuid, id: Uuid, expected: int): Reply {
    if id !in db.notes || db.notes[id].deletedAt.Some? then Refused(404)
    else Reply.Stale(expected, NoteView(id, db.notes[id], EffectiveRole(db, caller, id)))
  }

  function Delete(db: Db, caller: Uuid, id: Uuid, faults: Faults): Response {
    var d := Tick(db);
    match Load(d, caller, id, Action.Delete)
    case Err(status) => Response(d, Refused(status))
    case Ok(_) =>
      if 0 in faults then Response(d, Refused(500))
      else
        match Sql.SoftDeleteNote(d.notes, id, d.now)
        case Overflow => Response(d, Refused(500))
        case w => Response(d.(notes := Sql.Written(d.notes, id, w)), Done(204))
  }

  function Restore(db: Db, caller: Uuid, id: Uuid, faults: Faults): Response {
    var d := Tick(db);
    match Load(d, caller, id, Action.Restore)
    case Err(status) => Response(d, Refused(status))
    case Ok(loaded) =>
      if loaded.note.deletedAt.None? then Response(d, Refused(409))
      else if 0 in faults then Response(d, Refused(500))
      else
        match Sql.RestoreNote(d.notes, id, d.now)
        case Wrote(n) => Response(d.(notes := d.notes[id := n]), Sent(200, NoteView(id, n, loaded.role)))
        case _ => Response(d, Refused(500))
  }

  /** `get` changes nothing. */
  function Get(db: Db, caller: Uuid, id: Uuid): Reply {
    match Load(db, caller, id, Action.Read)
    case Err(status) => Refused(status)
    case Ok(loaded) => Sent(200, NoteView(id, loaded.note, loaded.role))
  }
}
