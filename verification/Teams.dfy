/** The team handlers (internal/teams/handler.go). A transaction is all or nothing; its commit counts
    as its last call. */
module Teams {
  import opened Wrappers
  import opened Uuids
  import opened Schema
  import opened Replies
  import Sql
  import Text

  const MAX_NAME_LENGTH := 128

  function ValidName(name: string): Option<string> {
    var s := Text.TrimSpace(name);
    if s == "" || Text.ByteLength(s) > MAX_NAME_LENGTH then None else Some(s)
  }

  /** `membership`: 404 to a caller who is no member, 403 to one whose role is too low. */
  function MembershipCheck(db: Db, caller: Uuid, team: Uuid, required: MemberRole): Option<nat> {
    if Membership(team, caller) !in db.members then Some(404)
    else if required.Admin? && !db.members[Membership(team, caller)].Admin? then Some(403)
    else None
  }

  /** `guardLastAdmin`: the user is the only admin the team has. */
  predicate StrandsTeam(db: Db, team: Uuid, user: Uuid) {
    && Membership(team, user) in db.members
    && db.members[Membership(team, user)].Admin?
    && |Sql.TeamAdmins(db.members, team)| <= 1
  }

  function Create(db: Db, caller: Uuid, id: Uuid, name: string, faults: Faults): Response {
    var d := Tick(db);
    match ValidName(name)
    case None => Response(d, Refused(400))
    case Some(n) =>
      if AnyFails(faults, 3) || id in d.teams || caller !in d.users then Response(d, Refused(500))
      else
        Response(d.(teams := d.teams[id := Team(n)], members := d.members[Membership(id, caller) := Admin]), Done(201))
  }

  function Rename(db: Db, caller: Uuid, team: Uuid, name: string, faults: Faults): Response {
    var d := Tick(db);
    match MembershipCheck(d, caller, team, Admin)
    case Some(status) => Response(d, Refused(status))
    case None =>
      match ValidName(name)
      case None => Response(d, Refused(400))
      case Some(n) =>
        if 0 in faults || team !in d.teams then Response(d, Refused(500))
        else Response(d.(teams := d.teams[team := Team(n)]), Done(200))
  }

  function Delete(db: Db, caller: Uuid, team: Uuid, faults: Faults): Response {
    var d := Tick(db);
    match MembershipCheck(d, caller, team, Admin)
    case Some(status) => Response(d, Refused(status))
    case None =>
      if AnyFails(faults, 2) then Response(d, Refused(500))
      else if team !in d.teams then Response(d, Refused(404))
      else if 2 in faults then Response(d, Refused(500))
      else
        Response(d.(shares := Sql.DeleteGrantsTo(d.shares, TeamPrincipal(team)),
                    teams := d.teams - {team},
                    members := Sql.MembersWithout(d.members, team)), Done(204))
  }

  function ParseMemberRole(role: string): Option<MemberRole> {
    if role == "" || role == "member" then Some(Member)
    else if role == "admin" then Some(Admin)
    else None
  }

  /** Adding a member again changes their role, so this also promotes and demotes. */
  function AddMember(db: Db, caller: Uuid, team: Uuid, user: Uuid, role: string, faults: Faults): Response {
    var d := Tick(db);
    match MembershipCheck(d, caller, team, Admin)
    case Some(status) => Response(d, Refused(status))
    case None =>
      match ParseMemberRole(role)
      case None => Response(d, Refused(400))
      case Some(r) =>
        if user == NIL then Response(d, Refused(400))
        else if r.Member? && StrandsTeam(d, team, user) then Response(d, Refused(409))
        else if 0 in faults then Response(d, Refused(500))
        else if team !in d.teams || user !in d.users then Response(d, Refused(404))
        else if 1 in faults then Response(d, Refused(500))
        else Response(d.(members := d.members[Membership(team, user) := r]), Done(204))
  }

  function RemoveFromTeam(d: Db, team: Uuid, user: Uuid, faults: Faults): Response {
    if StrandsTeam(d, team, user) then Response(d, Refused(409))
    else if 0 in faults then Response(d, Refused(500))
    else if Membership(team, user) !in d.members then Response(d, Refused(404))
    else if 1 in faults then Response(d, Refused(500))
    else Response(d.(members := d.members - {Membership(team, user)}), Done(204))
  }

  function RemoveMember(db: Db, caller: Uuid, team: Uuid, user: Uuid, faults: Faults): Response {
    var d := Tick(db);
    match MembershipCheck(d, caller, team, Admin)
    case Some(status) => Response(d, Refused(status))
    case None => RemoveFromTeam(d, team, user, faults)
  }

  function Leave(db: Db, caller: Uuid, team: Uuid, faults: Faults): Response {
    var d := Tick(db);
    match MembershipCheck(d, caller, team, Member)
    case Some(status) => Response(d, Refused(status))
    case None => RemoveFromTeam(d, team, caller, faults)
  }
}
