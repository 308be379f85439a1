/** The account handlers that change users and grants (internal/users/handler.go). */
module Accounts {
  import opened Wrappers
  import opened Uuids
  import opened Schema
  import opened Replies
  import Sql

  /** The unique index on the addresses of live accounts. */
  predicate EmailTaken(users: map<Uuid, User>, email: string, except: Uuid) {
    exists u | u in users :: u != except && users[u].deletedAt.None? && users[u].email == email
  }

  predicate Live(users: map<Uuid, User>, id: Uuid) {
    id in users && users[id].deletedAt.None?
  }

  function Register(db: Db, id: Uuid, email: string, displayName: string, faults: Faults): Response {
    var d := Tick(db);
    if 0 in faults || id in d.users then Response(d, Refused(500))
    else if EmailTaken(d.users, email, id) then Response(d, Refused(409))
    else Response(d.(users := d.users[id := User(email, displayName, None)]), Done(200))
  }

  function UpdateMe(db: Db, caller: Uuid, email: Option<string>, displayName: Option<string>,
                    faults: Faults): Response {
    var d := Tick(db);
    if 0 in faults then Response(d, Refused(500))
    else if !Live(d.users, caller) then Response(d, Refused(401))
    else
      var u := d.users[caller];
      var v := u.(email := Sql.Coalesce(email, u.email), displayName := Sql.Coalesce(displayName, u.displayName));
      if EmailTaken(d.users, v.email, caller) then Response(d, Refused(409))
      else Response(d.(users := d.users[caller := v]), Done(200))
  }

  /** `deleteMe`: the account is marked deleted and the grants that name it go with it. */
  function DeleteMe(db: Db, caller: Uuid, faults: Faults): Response {
    var d := Tick(db);
    if AnyFails(faults, 3) || !Live(d.users, caller) then Response(d, Refused(401))
    else
      Response(d.(users := d.users[caller := d.users[caller].(deletedAt := Some(d.now))],
                  shares := Sql.DeleteGrantsTo(d.shares, UserPrincipal(caller))), Done(204))
  }
}
