/** What a step can do to the tables, and what its handler has checked by then. Every step is
    shown to have one of these effects, and the invariants are proved about the effects. */
module Effects {
  import opened Wrappers
  import opened Uuids
  import opened Schema
  import opened Machine
  import opened Authz
  import opened Access
  import opened Replies
  import Sql
  import Notes
  import Shares
  import Teams
  import Accounts
  import Attachments
  import References

  datatype Effect =
    | Nothing
    | UserAdded(id: Uuid, user: User)
    | UserEdited(id: Uuid, user: User)
    | UserDeleted(id: Uuid)
    | TeamAdded(id: Uuid, team: Team, creator: Uuid)
    | TeamRenamed(id: Uuid, team: Team)
    | TeamDeleted(id: Uuid)
    | MemberSet(m: Membership, role: MemberRole)
    | MemberRemoved(m: Membership)
    | NoteAdded(id: Uuid, note: Note)
    | NoteWritten(id: Uuid, note: Note)
    | GrantSet(key: GrantKey, grantRole: string)
    | GrantRemoved(key: GrantKey)
    | FileAdded(id: Uuid, row: Attachment)
    | FileCompleted(id: Uuid, row: Attachment)
    | FileRemoved(id: Uuid, objectToo: bool)
    | ObjectPut(objectKey: string, info: ObjectInfo)
    | ObjectDropped(id: Uuid)
    | Swept(rows: seq<Uuid>, faults: Faults)

  /** The effect on the tables, at the time the request reads. */
  function Apply(d: Db, eff: Effect): Db
    requires eff.UserDeleted? ==> eff.id in d.users
    requires eff.FileRemoved? || eff.ObjectDropped? ==> eff.id in d.attachments
    requires eff.GrantSet? ==> eff.key.note in d.notes
  {
    match eff
    case Nothing => d
    case UserAdded(id, u) => d.(users := d.users[id := u])
    case UserEdited(id, u) => d.(users := d.users[id := u])
    case UserDeleted(id) =>
      d.(users := d.users[id := d.users[id].(deletedAt := Some(d.now))],
         shares := Sql.DeleteGrantsTo(d.shares, UserPrincipal(id)))
    case TeamAdded(id, t, u) => d.(teams := d.teams[id := t], members := d.members[Membership(id, u) := Admin])
    case TeamRenamed(id, t) => d.(teams := d.teams[id := t])
    case TeamDeleted(id) =>
      d.(shares := Sql.DeleteGrantsTo(d.shares, TeamPrincipal(id)), teams := d.teams - {id},
         members := Sql.MembersWithout(d.members, id))
    case MemberSet(m, role) => d.(members := d.members[m := role])
    case MemberRemoved(m) => d.(members := d.members - {m})
    case NoteAdded(id, n) => d.(notes := d.notes[id := n])
    case NoteWritten(id, n) => d.(notes := d.notes[id := n])
    case GrantSet(k, role) => d.(shares := Sql.UpsertNoteShare(d.shares, k, role, d.notes[k.note].owner, d.now))
    case GrantRemoved(k) => d.(shares := d.shares - {k})
    case FileAdded(id, row) => d.(attachments := d.attachments[id := row])
    case FileCompleted(id, row) => d.(attachments := d.attachments[id := row])
    case FileRemoved(id, objectToo) =>
      d.(attachments := d.attachments - {id},
         objects := if objectToo then d.objects - {d.attachments[id].objectKey} else d.objects)
    case ObjectPut(key, info) => d.(objects := d.objects[key := info])
    case ObjectDropped(id) => d.(objects := d.objects - {d.attachments[id].objectKey})
    case Swept(rows, faults) => Attachments.SweepFrom(d, rows, 0, faults)
  }

  /** What is known of an effect that a step on behalf of `actor` has. */
  ghost predicate Allowed(cfg: Config, d: Db, actor: Option<Uuid>, eff: Effect) {
    match eff
    case Nothing => true
    case UserAdded(id, u) => id !in d.users && u.deletedAt.None? && !Accounts.EmailTaken(d.users, u.email, id)
    case UserEdited(id, u) =>
      Accounts.Live(d.users, id) && u.deletedAt.None? && !Accounts.EmailTaken(d.users, u.email, id)
    case UserDeleted(id) => Accounts.Live(d.users, id)
    case TeamAdded(id, _, u) => id !in d.teams && u in d.users
    case TeamRenamed(id, _) => id in d.teams
    case TeamDeleted(id) => id in d.teams
    case MemberSet(m, role) =>
      m.team in d.teams && m.user in d.users && (role.Member? ==> !Teams.StrandsTeam(d, m.team, m.user))
    case MemberRemoved(m) => !Teams.StrandsTeam(d, m.team, m.user)
    case NoteAdded(id, n) =>
      && id !in d.notes && n.owner in d.users && actor == Some(n.owner)
      && n.version == 1 && n.updatedAt == d.now && References.Referenced(n.body) == {}
    case NoteWritten(id, n) =>
      && id in d.notes
      && var was := d.notes[id];
         && n.owner == was.owner && n.version == was.version + 1 <= MAX_VERSION && n.updatedAt == d.now
         && (n.body == was.body || Notes.ReferencesUsable(d.attachments, id, n.body))
    case GrantSet(k, role) =>
      && k.note in d.notes && actor == Some(d.notes[k.note].owner)
      && ParseGrantRole(role).Some?
      && Shares.ValidPrincipal(d, k.principal, d.notes[k.note].owner)
      && k.principal != UserPrincipal(d.notes[k.note].owner)
    case GrantRemoved(k) => k.note in d.notes && actor == Some(d.notes[k.note].owner)
    case FileAdded(id, row) =>
      && id !in d.attachments && !Attachments.KeyTaken(d.attachments, row.objectKey)
      && row.note in d.notes && 0 < row.size <= cfg.maxBytes && row.status.Pending?
    case FileCompleted(id, row) =>
      && id in d.attachments && d.attachments[id].status.Pending?
      && var key := d.attachments[id].objectKey;
         && key in d.objects && 0 < d.objects[key].size <= cfg.maxBytes
         && row == Sql.Completed(d.attachments[id], d.objects[key].size, d.objects[key].etag, d.now)
    case FileRemoved(id, _) =>
      && id in d.attachments && d.attachments[id].note in d.notes
      && id !in References.Referenced(d.notes[d.attachments[id].note].body)
    case ObjectPut(_, _) => true
    case ObjectDropped(id) => id in d.attachments && d.attachments[id].status.Pending?
    case Swept(rows, _) =>
      forall i | 0 <= i < |rows| :: rows[i] in d.attachments && d.attachments[rows[i]].status.Pending?
  }

  ghost predicate Has(cfg: Config, db: Db, actor: Option<Uuid>, next: Db, eff: Effect) {
    Allowed(cfg, Tick(db), actor, eff) && next == Apply(Tick(db), eff)
  }

  /** Only the owner reaches the owner's rank: no grant ranks above editor. */
  lemma OwnerActions(d: Db, u: Uuid, id: Uuid, action: Action)
    requires Load(d, u, id, action).Ok?
    requires action in {Action.Delete, Action.Restore, Share, Action.RevokeShare}
    ensures d.notes[id].owner == u
  {
    if d.notes[id].owner != u {
      RoleIsStrongestGrant(d, u, id, ROLE_OWNER);
    }
  }

  lemma EditStepsHaveEffects(cfg: Config, db: Db, step: Step, faults: Faults) returns (eff: Effect)
    requires step.CreateNote? || step.UpdateNote?
    ensures Has(cfg, db, Actor(Event(step, faults)), Answer(cfg, db, step, faults).db, eff)
    ensures !eff.FileAdded?
  {
    var next := Answer(cfg, db, step, faults).db;
    if next == Tick(db) {
      eff := Nothing;
    } else if step.CreateNote? {
      eff := NoteAdded(step.id, next.notes[step.id]);
    } else {
      eff := NoteWritten(step.note, next.notes[step.note]);
    }
  }

  lemma DeletionStepsHaveEffects(cfg: Config, db: Db, step: Step, faults: Faults) returns (eff: Effect)
    requires step.DeleteNote? || step.RestoreNote?
    ensures Has(cfg, db, Actor(Event(step, faults)), Answer(cfg, db, step, faults).db, eff)
    ensures !eff.FileAdded?
  {
    var next := Answer(cfg, db, step, faults).db;
    if next == Tick(db) {
      eff := Nothing;
    } else {
      eff := NoteWritten(step.note, next.notes[step.note]);
    }
  }

  lemma ShareStepsHaveEffects(cfg: Config, db: Db, step: Step, faults: Faults) returns (eff: Effect)
    requires step.UpsertShare? || step.RevokeShare?
    ensures Has(cfg, db, Actor(Event(step, faults)), Answer(cfg, db, step, faults).db, eff)
    ensures !eff.FileAdded?
  {
    var d, next := Tick(db), Answer(cfg, db, step, faults).db;
    eff := Nothing;
    if next != d {
      var p := Shares.ParsePrincipal(step.kind, step.principal).value;
      if step.UpsertShare? {
        OwnerActions(d, step.caller, step.note, Share);
        eff := GrantSet(GrantKey(step.note, p), step.role);
      } else {
        OwnerActions(d, step.caller, step.note, Action.RevokeShare);
        eff := GrantRemoved(GrantKey(step.note, p));
      }
    }
  }

  lemma TeamStepsHaveEffects(cfg: Config, db: Db, step: Step, faults: Faults) returns (eff: Effect)
    requires step.CreateTeam? || step.RenameTeam? || step.DeleteTeam?
    ensures Has(cfg, db, Actor(Event(step, faults)), Answer(cfg, db, step, faults).db, eff)
    ensures !eff.FileAdded?
  {
    eff := Nothing;
    if Answer(cfg, db, step, faults).db != Tick(db) {
      match step
      case CreateTeam(u, id, name) => eff := TeamAdded(id, Team(Teams.ValidName(name).value), u);
      case RenameTeam(_, id, name) => eff := TeamRenamed(id, Team(Teams.ValidName(name).value));
      case DeleteTeam(_, id) => eff := TeamDeleted(id);
    }
  }

  lemma MemberStepsHaveEffects(cfg: Config, db: Db, step: Step, faults: Faults) returns (eff: Effect)
    requires step.AddMember? || step.RemoveMember? || step.Leave?
    ensures Has(cfg, db, Actor(Event(step, faults)), Answer(cfg, db, step, faults).db, eff)
    ensures !eff.FileAdded?
  {
    eff := Nothing;
    if Answer(cfg, db, step, faults).db != Tick(db) {
      match step
      case AddMember(_, team, user, role) =>
        eff := MemberSet(Membership(team, user), Teams.ParseMemberRole(role).value);
      case RemoveMember(_, team, user) => eff := MemberRemoved(Membership(team, user));
      case Leave(u, team) => eff := MemberRemoved(Membership(team, u));
    }
  }

  lemma AccountStepsHaveEffects(cfg: Config, db: Db, step: Step, faults: Faults) returns (eff: Effect)
    requires step.Register? || step.UpdateMe? || step.DeleteMe?
    ensures Has(cfg, db, Actor(Event(step, faults)), Answer(cfg, db, step, faults).db, eff)
    ensures !eff.FileAdded?
  {
    var d, next := Tick(db), Answer(cfg, db, step, faults).db;
    eff := Nothing;
    if next != d {
      match step
      case Register(id, email, name) => eff := UserAdded(id, User(email, name, None));
      case UpdateMe(u, _, _) => eff := UserEdited(u, next.users[u]);
      case DeleteMe(u) => eff := UserDeleted(u);
    }
  }

  lemma FileStepsHaveEffects(cfg: Config, db: Db, step: Step, faults: Faults) returns (eff: Effect)
    requires step.Reserve? || step.RemoveFile?
    ensures Has(cfg, db, Actor(Event(step, faults)), Answer(cfg, db, step, faults).db, eff)
    ensures eff.FileAdded? ==> step.Reserve? && eff.row.objectKey == step.key
  {
    var d, next := Tick(db), Answer(cfg, db, step, faults).db;
    eff := Nothing;
    if next != d {
      match step
      case Reserve(_, _, id, _, _, _, _) => eff := FileAdded(id, next.attachments[id]);
      case RemoveFile(_, _, id) => eff := FileRemoved(id, 1 !in faults);
    }
  }

  lemma CompletionHasEffect(cfg: Config, db: Db, step: Step, faults: Faults) returns (eff: Effect)
    requires step.Complete?
    ensures Has(cfg, db, Actor(Event(step, faults)), Answer(cfg, db, step, faults).db, eff)
    ensures !eff.FileAdded?
  {
    var d, next := Tick(db), Answer(cfg, db, step, faults).db;
    if next == d {
      eff := Nothing;
    } else if next.attachments == d.attachments {
      eff := ObjectDropped(step.id);
    } else {
      eff := FileCompleted(step.id, next.attachments[step.id]);
    }
  }

  lemma ObjectStepsHaveEffects(cfg: Config, db: Db, step: Step, faults: Faults) returns (eff: Effect)
    requires step.Put? || step.Sweep?
    requires Enabled(db, Event(step, faults))
    ensures Has(cfg, db, Actor(Event(step, faults)), Answer(cfg, db, step, faults).db, eff)
    ensures !eff.FileAdded?
  {
    if step.Put? {
      eff := ObjectPut(step.key, step.info);
    } else {
      eff := Swept(step.rows, faults);
    }
  }

  predicate OnNotes(step: Step) {
    step.CreateNote? || step.UpdateNote? || step.DeleteNote? || step.RestoreNote? || step.UpsertShare?
        || step.RevokeShare?
  }

  predicate OnPeople(step: Step) {
    || step.Register? || step.UpdateMe? || step.DeleteMe? || step.CreateTeam? || step.RenameTeam? || step.DeleteTeam?
    || step.AddMember? || step.RemoveMember? || step.Leave?
  }

  lemma NoteStepHasEffect(cfg: Config, db: Db, step: Step, faults: Faults) returns (eff: Effect)
    requires OnNotes(step)
    ensures Has(cfg, db, Actor(Event(step, faults)), Answer(cfg, db, step, faults).db, eff) && !eff.FileAdded?
  {
    if step.CreateNote? || step.UpdateNote? {
      eff := EditStepsHaveEffects(cfg, db, step, faults);
    } else if step.DeleteNote? || step.RestoreNote? {
      eff := DeletionStepsHaveEffects(cfg, db, step, faults);
    } else {
      eff := ShareStepsHaveEffects(cfg, db, step, faults);
    }
  }

  lemma PeopleStepHasEffect(cfg: Config, db: Db, step: Step, faults: Faults) returns (eff: Effect)
    requires OnPeople(step)
    ensures Has(cfg, db, Actor(Event(step, faults)), Answer(cfg, db, step, faults).db, eff) && !eff.FileAdded?
  {
    if step.Register? || step.UpdateMe? || step.DeleteMe? {
      eff := AccountStepsHaveEffects(cfg, db, step, faults);
    } else if step.CreateTeam? || step.RenameTeam? || step.DeleteTeam? {
      eff := TeamStepsHaveEffects(cfg, db, step, faults);
    } else {
      eff := MemberStepsHaveEffects(cfg, db, step, faults);
    }
  }

  lemma StepHasEffect(cfg: Config, db: Db, step: Step, faults: Faults) returns (eff: Effect)
    requires Enabled(db, Event(step, faults))
    ensures Has(cfg, db, Actor(Event(step, faults)), Answer(cfg, db, step, faults).db, eff)
    ensures eff.FileAdded? ==> step.Reserve? && eff.row.objectKey == step.key
  {
    if OnNotes(step) {
      eff := NoteStepHasEffect(cfg, db, step, faults);
    } else if OnPeople(step) {
      eff := PeopleStepHasEffect(cfg, db, step, faults);
    } else if step.Reserve? || step.RemoveFile? {
      eff := FileStepsHaveEffects(cfg, db, step, faults);
    } else if step.Complete? {
      eff := CompletionHasEffect(cfg, db, step, faults);
    } else {
      eff := ObjectStepsHaveEffects(cfg, db, step, faults);
    }
  }

  /** Every event has one of the effects, under the checks that go with it. */
  lemma EventHasEffect(cfg: Config, db: Db, e: Event) returns (eff: Effect)
    requires Enabled(db, e)
    ensures Has(cfg, db, Actor(e), Next(cfg, db, e), eff)
    ensures eff.FileAdded? ==> e.Event? && e.step.Reserve? && eff.row.objectKey == e.step.key
  {
    match e
    case Idle => eff := Nothing;
    case Event(step, faults) => eff := StepHasEffect(cfg, db, step, faults);
  }
}
