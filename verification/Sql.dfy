/** The conditional statements (internal/store/sqlcgen), each atomic on its own. */
module Sql {
  import opened Wrappers
  import opened Uuids
  import opened Schema

  /** The columns a PATCH carries; a missing one is left as it is by `coalesce`. */
  datatype Patch = Patch(title: Option<string>, body: Option<string>, tags: Option<seq<string>>)

  function Coalesce<T>(given: Option<T>, current: T): T {
    if given.Some? then given.value else current
  }

  /** No row met the condition; the version column would overflow; or the row was written. */
  datatype NoteWrite = NoRow | Overflow | Wrote(note: Note)

  function Bumped(n: Note, t: int): NoteWrite {
    if n.version >= MAX_VERSION then Overflow else Wrote(n.(version := n.version + 1, updatedAt := t))
  }

  function UpdateNote(notes: map<Uuid, Note>, id: Uuid, expected: int, patch: Patch, t: int): NoteWrite {
    if id !in notes || notes[id].version != expected || notes[id].deletedAt.Some? then NoRow
    else
      var n := notes[id];
      Bumped(n.(title := Coalesce(patch.title, n.title),
                body := Coalesce(patch.body, n.body),
                tags := Coalesce(patch.tags, n.tags)), t)
  }

  function SoftDeleteNote(notes: map<Uuid, Note>, id: Uuid, t: int): NoteWrite {
    if id !in notes || notes[id].deletedAt.Some? then NoRow
    else Bumped(notes[id].(deletedAt := Some(t)), t)
  }

  function RestoreNote(notes: map<Uuid, Note>, id: Uuid, t: int): NoteWrite {
    if id !in notes || notes[id].deletedAt.None? then NoRow
    else Bumped(notes[id].(deletedAt := None), t)
  }

  function NewNote(owner: Uuid, title: string, body: string, tags: seq<string>, t: int): Note {
    Note(owner, title, body, tags, 1, t, t, None)
  }

  /** The notes after a write. */
  function Written(notes: map<Uuid, Note>, id: Uuid, w: NoteWrite): map<Uuid, Note> {
    if w.Wrote? then notes[id := w.note] else notes
  }

  /** `on conflict ... do update`: an existing grant keeps its creation time. */
  function UpsertNoteShare(shares: map<GrantKey, Grant>, key: GrantKey, role: string, granter: Uuid,
                      t: int): map<GrantKey, Grant> {
    shares[key := Grant(role, granter, if key in shares then shares[key].createdAt else t)]
  }

  function DeleteGrantsTo(shares: map<GrantKey, Grant>, p: Principal): map<GrantKey, Grant> {
    map k | k in shares && k.principal != p :: shares[k]
  }

  function TeamAdmins(members: map<Membership, MemberRole>, team: Uuid): set<Membership> {
    set m | m in members && m.team == team && members[m].Admin?
  }

  /** `on delete cascade` from teams to team_members. */
  function MembersWithout(members: map<Membership, MemberRole>, team: Uuid): map<Membership, MemberRole> {
    map m | m in members && m.team != team :: members[m]
  }

  /** A pending row becomes ready with the size and checksum that were verified. */
  function Completed(a: Attachment, size: int, checksum: string, t: int): Attachment {
    a.(status := Ready, readyAt := Some(t), size := size, checksum := Some(checksum))
  }

  predicate Stale(attachments: map<Uuid, Attachment>, id: Uuid, cutoff: int) {
    id in attachments && attachments[id].status.Pending? && attachments[id].createdAt < cutoff
  }

  /** A result of `ListStaleUploads`: stale rows, oldest first, all of them or `limit` of the oldest. */
  ghost predicate StaleListing(attachments: map<Uuid, Attachment>, cutoff: int, limit: nat, rows: seq<Uuid>) {
    && |rows| <= limit
    && (forall i | 0 <= i < |rows| :: Stale(attachments, rows[i], cutoff))
    && (forall i, j | 0 <= i < j < |rows| ::
          rows[i] != rows[j] && attachments[rows[i]].createdAt <= attachments[rows[j]].createdAt)
    && (forall id | Stale(attachments, id, cutoff) && id !in rows ::
          |rows| == limit && forall r | r in rows :: attachments[r].createdAt <= attachments[id].createdAt)
  }
}
