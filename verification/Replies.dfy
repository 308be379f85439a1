/** What a request answers, and which of its calls fail. */
module Replies {
  import opened Uuids
  import opened Schema
  import opened Authz

  /** A note as it is sent (internal/notes/dto.go). */
  datatype NoteView = NoteView(id: Uuid, note: Note, role: Role)

  datatype Reply =
    | Done(status: nat)
    | Refused(status: nat)
    | Sent(status: nat, view: NoteView)
    | Stale(sent: int, current: NoteView)
    | File(status: nat, id: Uuid, row: Attachment)

  datatype Response = Response(db: Db, reply: Reply)

  /** The writes of a request, numbered from zero, that the database or the object store fails. */
  type Faults = set<nat>

  /** One of the first `calls` writes fails. */
  predicate AnyFails(faults: Faults, calls: nat) {
    exists i | 0 <= i < calls :: i in faults
  }
}
