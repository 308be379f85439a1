/** Who may do what to a note: the role expression of `GetNoteWithAccess`
    (internal/store/sqlcgen/notes.sql.go) and `load` (internal/notes/handler.go). */
module Access {
  import opened Wrappers
  import opened Uuids
  import opened Schema
  import opened Authz
  import opened Maxima

  /** The rank of a stored role name; a name that is no role ranks zero. */
  function Rank(role: string): Role {
    if role == "editor" then ROLE_EDITOR else if role == "viewer" then ROLE_VIEWER else ROLE_NONE
  }

  /** The grant names the user, or a team the user is a member of. */
  predicate Reaches(db: Db, user: Uuid, p: Principal) {
    match p
    case UserPrincipal(id) => id == user
    case TeamPrincipal(id) => Membership(id, user) in db.members
  }

  predicate Matches(db: Db, user: Uuid, note: Uuid, k: GrantKey) {
    k in db.shares && k.note == note && Reaches(db, user, k.principal)
  }

  function MatchingRanks(db: Db, user: Uuid, note: Uuid): set<Role> {
    set k | k in db.shares && Matches(db, user, note, k) :: Rank(db.shares[k].role)
  }

  function EffectiveRole(db: Db, user: Uuid, note: Uuid): Role
    requires note in db.notes
  {
    if db.notes[note].owner == user then ROLE_OWNER
    else MaxOrZero(MatchingRanks(db, user, note))
  }

  /** The user's role on a note, none when there is no such note. */
  function RoleOn(db: Db, user: Uuid, note: Uuid): Role {
    if note in db.notes then EffectiveRole(db, user, note) else ROLE_NONE
  }

  /** The strongest matching grant decides: a role is held exactly when one grant alone gives it. */
  lemma RoleIsStrongestGrant(db: Db, user: Uuid, note: Uuid, role: Role)
    requires note in db.notes && db.notes[note].owner != user && role > ROLE_NONE
    ensures EffectiveRole(db, user, note) >= role <==>
            exists k :: Matches(db, user, note, k) && Rank(db.shares[k].role) >= role
  {
    var s := MatchingRanks(db, user, note);
    if k :| Matches(db, user, note, k) && Rank(db.shares[k].role) >= role {
      assert Rank(db.shares[k].role) in s;
    }
  }

  /** Roles are ordered as numbers; as names, a viewer would outrank an editor. */
  lemma EditorOutranksViewer(db: Db, user: Uuid, note: Uuid, editor: GrantKey, viewer: GrantKey)
    requires note in db.notes && db.notes[note].owner != user
    requires Matches(db, user, note, editor) && db.shares[editor].role == "editor"
    requires Matches(db, user, note, viewer) && db.shares[viewer].role == "viewer"
    ensures EffectiveRole(db, user, note) == ROLE_EDITOR
  {
    RoleIsStrongestGrant(db, user, note, ROLE_EDITOR);
    RoleIsStrongestGrant(db, user, note, ROLE_OWNER);
  }

  datatype Loaded = Loaded(note: Note, role: Role)

  /** `load`: a caller without access is told the note does not exist (404); a caller who may see
      it but not do this is refused (403); a deleted note exists for `restore` alone. */
  function Load(db: Db, user: Uuid, id: Uuid, action: Action): Result<Loaded, nat> {
    if id !in db.notes then Err(404)
    else
      var role := EffectiveRole(db, user, id);
      if !Can(role, Read) then Err(404)
      else if db.notes[id].deletedAt.Some? && action != Restore then Err(404)
      else if !Can(role, action) then Err(403)
      else Ok(Loaded(db.notes[id], role))
  }

  /** What `load` decides, in terms of roles. */
  lemma LoadDecides(db: Db, user: Uuid, id: Uuid, action: Action)
    ensures var role := RoleOn(db, user, id);
            var hidden := role == ROLE_NONE || (db.notes[id].deletedAt.Some? && action != Restore);
            match Load(db, user, id, action)
            case Ok(l) => !hidden && role >= MINIMUM_ROLE[action] && l == Loaded(db.notes[id], role)
            case Err(status) => if hidden then status == 404 else status == 403 && role < MINIMUM_ROLE[action]
  {
    if id in db.notes && db.notes[id].owner != user {
      var s := MatchingRanks(db, user, id);
      assert forall r | r in s :: ROLE_NONE <= r;
    }
  }
}
