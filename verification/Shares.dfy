/** The share handlers (internal/notes/shares.go). */
module Shares {
  import opened Wrappers
  import opened Uuids
  import opened Schema
  import opened Authz
  import opened Access
  import opened Replies
  import Sql

  function ParsePrincipal(kind: string, id: Uuid): Option<Principal> {
    if kind == "user" then Some(UserPrincipal(id))
    else if kind == "team" then Some(TeamPrincipal(id))
    else None
  }

  /** `validatePrincipal`: a live user, or a team the owner belongs to. */
  predicate ValidPrincipal(db: Db, p: Principal, owner: Uuid) {
    match p
    case UserPrincipal(id) => id in db.users && db.users[id].deletedAt.None?
    case TeamPrincipal(id) => id in db.teams && Membership(id, owner) in db.members
  }

  function Upsert(db: Db, caller: Uuid, note: Uuid, kind: string, principalId: Uuid, role: string,
                  faults: Faults): Response {
    var d := Tick(db);
    match Load(d, caller, note, Action.Share)
    case Err(status) => Response(d, Refused(status))
    case Ok(_) =>
      match (ParseGrantRole(role), ParsePrincipal(kind, principalId))
      case (Some(_), Some(p)) =>
        if principalId == NIL || p == UserPrincipal(caller) then Response(d, Refused(400))
        else if !ValidPrincipal(d, p, caller) then Response(d, Refused(404))
        else if 0 in faults then Response(d, Refused(500))
        else
          Response(d.(shares := Sql.UpsertNoteShare(d.shares, GrantKey(note, p), role, caller, d.now)), Done(204))
      case _ => Response(d, Refused(400))
  }

  function Revoke(db: Db, caller: Uuid, note: Uuid, kind: string, principalId: Uuid, faults: Faults): Response {
    var d := Tick(db);
    match Load(d, caller, note, Action.RevokeShare)
    case Err(status) => Response(d, Refused(status))
    case Ok(_) =>
      match ParsePrincipal(kind, principalId)
      case None => Response(d, Refused(404))
      case Some(p) =>
        if 0 in faults then Response(d, Refused(500))
        else if GrantKey(note, p) !in d.shares then Response(d, Refused(404))
        else Response(d.(shares := d.shares - {GrantKey(note, p)}), Done(204))
  }

  /** One grant as it is listed; a principal that no longer exists has no name. */
  datatype ShareView = ShareView(
    principal: Principal, name: Option<string>, email: Option<string>, role: string, createdAt: int
  )

  function ViewOf(db: Db, k: GrantKey): ShareView
    requires k in db.shares
  {
    var g := db.shares[k];
    match k.principal
    case UserPrincipal(u) =>
      if u in db.users then
        ShareView(k.principal, Some(db.users[u].displayName), Some(db.users[u].email), g.role, g.createdAt)
      else ShareView(k.principal, None, None, g.role, g.createdAt)
    case TeamPrincipal(t) =>
      ShareView(k.principal, if t in db.teams then Some(db.teams[t].name) else None, None, g.role, g.createdAt)
  }

  /** `listShares`, leaving out the order of the rows. */
  function List(db: Db, caller: Uuid, note: Uuid): Result<set<ShareView>, nat> {
    match Load(db, caller, note, Action.ListShares)
    case Err(status) => Err(status)
    case Ok(_) => Ok(set k | k in db.shares && k.note == note :: ViewOf(db, k))
  }
}
