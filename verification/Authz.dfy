/** The note access rules (internal/authz/role.go). */
module Authz {
  import opened Wrappers

  /** A caller's effective access to one note, ranked as an integer. */
  type Role = nat

  const ROLE_NONE: Role := 0
  const ROLE_VIEWER: Role := 1
  const ROLE_EDITOR: Role := 2
  const ROLE_OWNER: Role := 3

  datatype Action =
    | Read | ListShares | DownloadAttachment
    | Update | AddAttachment | RemoveAttachment
    | Delete | Restore | Share | RevokeShare

  /** The decision table. */
  const MINIMUM_ROLE: map<Action, Role> := map[
    Read := ROLE_VIEWER, ListShares := ROLE_VIEWER, DownloadAttachment := ROLE_VIEWER,
    Update := ROLE_EDITOR, AddAttachment := ROLE_EDITOR, RemoveAttachment := ROLE_EDITOR,
    Delete := ROLE_OWNER, Restore := ROLE_OWNER, Share := ROLE_OWNER, RevokeShare := ROLE_OWNER
  ]

  /** An action missing from the table is denied. */
  predicate Can(role: Role, action: Action) {
    action in MINIMUM_ROLE && role >= MINIMUM_ROLE[action]
  }

  /** Owner is not a grantable role. */
  function ParseGrantRole(s: string): Option<Role> {
    if s == "viewer" then Some(ROLE_VIEWER)
    else if s == "editor" then Some(ROLE_EDITOR)
    else None
  }
}
