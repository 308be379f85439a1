/** The whole service as one machine: every handler and the sweep is a step, taken atomically. */
module Machine {
  import opened Wrappers
  import opened Uuids
  import opened Schema
  import opened Replies
  import Sql
  import Notes
  import Shares
  import Teams
  import Accounts
  import Attachments

  datatype Step =
    | Register(id: Uuid, email: string, displayName: string)
    | UpdateMe(caller: Uuid, newEmail: Option<string>, newName: Option<string>)
    | DeleteMe(caller: Uuid)
    | CreateTeam(caller: Uuid, id: Uuid, name: string)
    | RenameTeam(caller: Uuid, team: Uuid, name: string)
    | DeleteTeam(caller: Uuid, team: Uuid)
    | AddMember(caller: Uuid, team: Uuid, user: Uuid, role: string)
    | RemoveMember(caller: Uuid, team: Uuid, user: Uuid)
    | Leave(caller: Uuid, team: Uuid)
    | CreateNote(caller: Uuid, id: Uuid, title: string, body: string, tags: seq<string>)
    | UpdateNote(caller: Uuid, note: Uuid, ifMatch: string, patch: Sql.Patch)
    | DeleteNote(caller: Uuid, note: Uuid)
    | RestoreNote(caller: Uuid, note: Uuid)
    | UpsertShare(caller: Uuid, note: Uuid, kind: string, principal: Uuid, role: string)
    | RevokeShare(caller: Uuid, note: Uuid, kind: string, principal: Uuid)
    | Reserve(caller: Uuid, note: Uuid, id: Uuid, key: string, filename: string, mimeType: string, size: int)
    | Complete(caller: Uuid, note: Uuid, id: Uuid)
    | RemoveFile(caller: Uuid, note: Uuid, id: Uuid)
    | Put(key: string, info: ObjectInfo)
    | Sweep(cutoff: int, limit: nat, rows: seq<Uuid>)

  /** A step, and which of its calls fail. A request that fails before its first write has step
      `Idle` as its effect: time passes. */
  datatype Event = Idle | Event(step: Step, faults: Faults)

  /** The id under which a step acts, if it acts for someone. */
  function Actor(e: Event): Option<Uuid> {
    if e.Idle? || e.step.Register? || e.step.Put? || e.step.Sweep? then None else Some(e.step.caller)
  }

  /** A sweep works on what it listed. */
  ghost predicate Enabled(db: Db, e: Event) {
    e.Event? && e.step.Sweep? ==> Sql.StaleListing(db.attachments, e.step.cutoff, e.step.limit, e.step.rows)
  }

  function Answer(cfg: Config, db: Db, step: Step, faults: Faults): Response {
    match step
    case Register(id, email, name) => Accounts.Register(db, id, email, name, faults)
    case UpdateMe(u, email, name) => Accounts.UpdateMe(db, u, email, name, faults)
    case DeleteMe(u) => Accounts.DeleteMe(db, u, faults)
    case CreateTeam(u, id, name) => Teams.Create(db, u, id, name, faults)
    case RenameTeam(u, team, name) => Teams.Rename(db, u, team, name, faults)
    case DeleteTeam(u, team) => Teams.Delete(db, u, team, faults)
    case AddMember(u, team, user, role) => Teams.AddMember(db, u, team, user, role, faults)
    case RemoveMember(u, team, user) => Teams.RemoveMember(db, u, team, user, faults)
    case Leave(u, team) => Teams.Leave(db, u, team, faults)
    case CreateNote(u, id, title, body, tags) => Notes.Create(cfg, db, u, id, title, body, tags, faults)
    case UpdateNote(u, note, ifMatch, patch) => Notes.Update(cfg, db, u, note, ifMatch, patch, faults)
    case DeleteNote(u, note) => Notes.Delete(db, u, note, faults)
    case RestoreNote(u, note) => Notes.Restore(db, u, note, faults)
    case UpsertShare(u, note, kind, principal, role) => Shares.Upsert(db, u, note, kind, principal, role, faults)
    case RevokeShare(u, note, kind, principal) => Shares.Revoke(db, u, note, kind, principal, faults)
    case Reserve(u, note, id, key, filename, mime, size) =>
      Attachments.Reserve(cfg, db, u, note, id, key, filename, mime, size, faults)
    case Complete(u, note, id) => Attachments.Complete(cfg, db, u, note, id, faults)
    case RemoveFile(u, note, id) => Attachments.Remove(db, u, note, id, faults)
    case Put(key, info) => Attachments.Put(db, key, info)
    case Sweep(_, _, rows) => Response(Attachments.Sweep(db, rows, faults), Done(0))
  }

  function Next(cfg: Config, db: Db, e: Event): Db {
    match e
    case Idle => Tick(db)
    case Event(step, faults) => Answer(cfg, db, step, faults).db
  }

  /** Each event is one the state it meets allows. */
  ghost predicate Run(cfg: Config, db: Db, events: seq<Event>)
    decreases |events|
  {
    events == [] || (Enabled(db, events[0]) && Run(cfg, Next(cfg, db, events[0]), events[1..]))
  }

  function After(cfg: Config, db: Db, events: seq<Event>): Db
    decreases |events|
  {
    if events == [] then db else After(cfg, Next(cfg, db, events[0]), events[1..])
  }

  ghost predicate Reachable(cfg: Config, db: Db) {
    exists events :: Run(cfg, EMPTY, events) && After(cfg, EMPTY, events) == db
  }
}
