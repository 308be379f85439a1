/** What every reachable state keeps. Where the schema has a foreign key, a check or a unique
    index, the statement fails instead of breaking it; everything else rests on the handlers. */
module Integrity {
  import opened Wrappers
  import opened Uuids
  import opened Schema
  import opened Machine
  import opened Effects
  import Sql
  import Authz
  import Notes
  import Accounts
  import Attachments

  /** Times lie in the past, and versions start at one. */
  ghost predicate NotesOk(db: Db) {
    forall n | n in db.notes ::
      && db.notes[n].owner in db.users
      && 1 <= db.notes[n].version <= MAX_VERSION
      && db.notes[n].updatedAt <= db.now
  }

  /** A grant is for an existing note, in a grantable role. It names a live user who is not the
      owner, or an existing team, and only the owner gave it. */
  ghost predicate GrantOk(db: Db, k: GrantKey, g: Grant) {
    && k.note in db.notes
    && Authz.ParseGrantRole(g.role).Some?
    && g.grantedBy == db.notes[k.note].owner
    && match k.principal
       case UserPrincipal(u) => Accounts.Live(db.users, u) && u != db.notes[k.note].owner
       case TeamPrincipal(t) => t in db.teams
  }

  ghost predicate GrantsOk(db: Db) {
    forall k | k in db.shares :: GrantOk(db, k, db.shares[k])
  }

  predicate IsAdmin(members: map<Membership, MemberRole>, team: Uuid, user: Uuid) {
    Membership(team, user) in members && members[Membership(team, user)].Admin?
  }

  ghost predicate HasAdmin(members: map<Membership, MemberRole>, team: Uuid) {
    exists u :: IsAdmin(members, team, u)
  }

  /** Memberships are between existing teams and users, and every team has an admin. */
  ghost predicate TeamsOk(db: Db) {
    && (forall m | m in db.members :: m.team in db.teams && m.user in db.users)
    && (forall t | t in db.teams :: HasAdmin(db.members, t))
  }

  /** Attachments belong to notes, have object keys of their own and sizes within the limit; the
      object of a ready one is stored. */
  ghost predicate AttachmentOk(cfg: Config, db: Db, a: Attachment) {
    && a.note in db.notes
    && 0 < a.size <= cfg.maxBytes
    && (a.status.Ready? ==> a.objectKey in db.objects)
  }

  ghost predicate AttachmentsOk(cfg: Config, db: Db) {
    && (forall a | a in db.attachments :: AttachmentOk(cfg, db, db.attachments[a]))
    && KeysDistinct(db.attachments)
  }

  ghost predicate KeysDistinct(attachments: map<Uuid, Attachment>) {
    forall a, b | a in attachments && b in attachments && a != b :: attachments[a].objectKey != attachments[b].objectKey
  }

  /** Whatever a body refers to, deleted notes included, is a ready attachment of the same note. */
  ghost predicate ReferencesOk(db: Db) {
    forall n | n in db.notes :: Notes.ReferencesUsable(db.attachments, n, db.notes[n].body)
  }

  /** No two live accounts share an address; a deleted one blocks none. */
  ghost predicate AddressesOk(db: Db) {
    forall u, v | Accounts.Live(db.users, u) && Accounts.Live(db.users, v) && u != v ::
      db.users[u].email != db.users[v].email
  }

  ghost predicate Inv(cfg: Config, db: Db) {
    AddressesOk(db) && NotesOk(db) && GrantsOk(db) && TeamsOk(db) && AttachmentsOk(cfg, db) && ReferencesOk(db)
  }

  lemma {:induction false} SweepChangesFilesOnly(d: Db, rows: seq<Uuid>, i: nat, faults: set<nat>)
    requires i <= |rows|
    ensures var s := Attachments.SweepFrom(d, rows, i, faults);
            s == d.(attachments := s.attachments, objects := s.objects)
    decreases |rows| - i
  {
    if i < |rows| {
      SweepChangesFilesOnly(Attachments.SweepOne(d, rows[i], i, faults), rows, i + 1, faults);
    }
  }

  /** Every other effect leaves the notes, their owners and the time. */
  lemma OtherEffectsKeepNotes(cfg: Config, d: Db, actor: Option<Uuid>, eff: Effect)
    requires Allowed(cfg, d, actor, eff) && !eff.NoteAdded? && !eff.NoteWritten?
    ensures var next := Apply(d, eff);
            next.notes == d.notes && next.now == d.now && forall u | u in d.users :: u in next.users
  {
    if eff.Swept? {
      SweepChangesFilesOnly(d, eff.rows, 0, eff.faults);
    }
  }

  lemma NotesStayOk(cfg: Config, d: Db, actor: Option<Uuid>, eff: Effect)
    requires NotesOk(d) && Allowed(cfg, d, actor, eff)
    ensures NotesOk(Apply(d, eff))
  {
    if !eff.NoteAdded? && !eff.NoteWritten? {
      OtherEffectsKeepNotes(cfg, d, actor, eff);
    }
  }

  predicate OnGrants(eff: Effect) {
    eff.UserDeleted? || eff.TeamDeleted? || eff.GrantSet? || eff.GrantRemoved?
  }

  /** Every other effect leaves the grants, and whatever they name. */
  lemma OtherEffectsKeepGrants(cfg: Config, d: Db, actor: Option<Uuid>, eff: Effect)
    requires Allowed(cfg, d, actor, eff) && !OnGrants(eff)
    ensures var next := Apply(d, eff);
            && next.shares == d.shares
            && (forall u | Accounts.Live(d.users, u) :: Accounts.Live(next.users, u))
            && (forall t | t in d.teams :: t in next.teams)
            && (forall n | n in d.notes :: n in next.notes && next.notes[n].owner == d.notes[n].owner)
  {
    if eff.Swept? {
      SweepChangesFilesOnly(d, eff.rows, 0, eff.faults);
    }
  }

  lemma GrantEffectsKeepGrants(cfg: Config, d: Db, actor: Option<Uuid>, eff: Effect)
    requires GrantsOk(d) && Allowed(cfg, d, actor, eff) && OnGrants(eff)
    ensures GrantsOk(Apply(d, eff))
  {
    var next := Apply(d, eff);
    forall k | k in next.shares
      ensures GrantOk(next, k, next.shares[k])
    {
      if !eff.GrantSet? || k != eff.key {
        assert GrantOk(d, k, d.shares[k]);
      }
    }
  }

  lemma GrantsStayOk(cfg: Config, d: Db, actor: Option<Uuid>, eff: Effect)
    requires GrantsOk(d) && Allowed(cfg, d, actor, eff)
    ensures GrantsOk(Apply(d, eff))
  {
    if OnGrants(eff) {
      GrantEffectsKeepGrants(cfg, d, actor, eff);
    } else {
      OtherEffectsKeepGrants(cfg, d, actor, eff);
      assert forall k | k in d.shares :: GrantOk(d, k, d.shares[k]);
    }
  }

  lemma AnotherAdmin(members: map<Membership, MemberRole>, m: Membership)
    requires |Sql.TeamAdmins(members, m.team)| > 1
    ensures exists u :: u != m.user && IsAdmin(members, m.team, u)
  {
    var admins := Sql.TeamAdmins(members, m.team);
    assert |admins - {m}| >= |admins| - 1;
    var other :| other in admins - {m};
    assert other == Membership(m.team, other.user) && m == Membership(m.team, m.user);
    assert IsAdmin(members, m.team, other.user);
  }

  predicate OnTeams(eff: Effect) {
    eff.TeamAdded? || eff.TeamDeleted? || eff.MemberSet? || eff.MemberRemoved?
  }

  /** Every other effect leaves the memberships, and the teams and users they are between. */
  lemma OtherEffectsKeepTeams(cfg: Config, d: Db, actor: Option<Uuid>, eff: Effect)
    requires Allowed(cfg, d, actor, eff) && !OnTeams(eff)
    ensures var next := Apply(d, eff);
            && next.members == d.members && next.teams.Keys == d.teams.Keys
            && (forall u | u in d.users :: u in next.users)
  {
    if eff.Swept? {
      SweepChangesFilesOnly(d, eff.rows, 0, eff.faults);
    }
  }

  lemma TeamComesAndGoes(cfg: Config, d: Db, actor: Option<Uuid>, eff: Effect)
    requires TeamsOk(d) && Allowed(cfg, d, actor, eff) && (eff.TeamAdded? || eff.TeamDeleted?)
    ensures TeamsOk(Apply(d, eff))
  {
    var next := Apply(d, eff);
    forall t | t in next.teams
      ensures HasAdmin(next.members, t)
    {
      if eff.TeamAdded? && t == eff.id {
        assert IsAdmin(next.members, t, eff.creator);
      } else {
        var u :| IsAdmin(d.members, t, u);
        assert IsAdmin(next.members, t, u);
      }
    }
  }

  /** Setting or removing one membership leaves an admin: the same one, or another. */
  lemma AdminRemains(members: map<Membership, MemberRole>, next: map<Membership, MemberRole>, m: Membership, team: Uuid)
    requires HasAdmin(members, team)
    requires forall k | k in members && k != m :: k in next && next[k] == members[k]
    requires (m in members && members[m].Admin? && |Sql.TeamAdmins(members, m.team)| <= 1) ==>
            IsAdmin(next, m.team, m.user)
    ensures HasAdmin(next, team)
  {
    var u :| IsAdmin(members, team, u);
    if Membership(team, u) != m || IsAdmin(next, team, u) {
      assert IsAdmin(next, team, u);
    } else {
      AnotherAdmin(members, m);
      var other :| other != m.user && IsAdmin(members, m.team, other);
      assert IsAdmin(next, team, other);
    }
  }

  lemma MembershipChanges(cfg: Config, d: Db, actor: Option<Uuid>, eff: Effect)
    requires TeamsOk(d) && Allowed(cfg, d, actor, eff) && (eff.MemberSet? || eff.MemberRemoved?)
    ensures TeamsOk(Apply(d, eff))
  {
    var next := Apply(d, eff);
    forall t | t in next.teams
      ensures HasAdmin(next.members, t)
    {
      AdminRemains(d.members, next.members, eff.m, t);
    }
  }

  lemma TeamsStayOk(cfg: Config, d: Db, actor: Option<Uuid>, eff: Effect)
    requires TeamsOk(d) && Allowed(cfg, d, actor, eff)
    ensures TeamsOk(Apply(d, eff))
  {
    if eff.TeamAdded? || eff.TeamDeleted? {
      TeamComesAndGoes(cfg, d, actor, eff);
    } else if eff.MemberSet? || eff.MemberRemoved? {
      MembershipChanges(cfg, d, actor, eff);
    } else {
      OtherEffectsKeepTeams(cfg, d, actor, eff);
    }
  }

  /** The remaining rows are as they were, and no ready one is missing. */
  ghost predicate OnlyPendingLost(before: map<Uuid, Attachment>, after: map<Uuid, Attachment>) {
    && (forall a | a in after :: a in before && after[a] == before[a])
    && (forall a | a in before && before[a].status.Ready? :: a in after)
  }

  lemma DroppingPendingKeepsFiles(cfg: Config, d: Db, id: Uuid)
    requires AttachmentsOk(cfg, d) && id in d.attachments && d.attachments[id].status.Pending?
    ensures AttachmentsOk(cfg, d.(objects := d.objects - {d.attachments[id].objectKey}))
  {
    var s := d.(objects := d.objects - {d.attachments[id].objectKey});
    forall a | a in s.attachments
      ensures AttachmentOk(cfg, s, s.attachments[a])
    {
      assert AttachmentOk(cfg, d, d.attachments[a]);
      assert a != id ==> d.attachments[a].objectKey != d.attachments[id].objectKey;
    }
  }

  lemma LosingRowKeepsFiles(cfg: Config, d: Db, id: Uuid)
    requires AttachmentsOk(cfg, d)
    ensures AttachmentsOk(cfg, d.(attachments := d.attachments - {id}))
  {
    var s := d.(attachments := d.attachments - {id});
    assert forall a | a in s.attachments :: AttachmentOk(cfg, d, d.attachments[a]);
  }

  lemma SweepOneKeepsFiles(cfg: Config, d: Db, id: Uuid, i: nat, faults: set<nat>)
    requires AttachmentsOk(cfg, d) && (id in d.attachments ==> d.attachments[id].status.Pending?)
    ensures var s := Attachments.SweepOne(d, id, i, faults);
            AttachmentsOk(cfg, s) && OnlyPendingLost(d.attachments, s.attachments)
  {
    if id in d.attachments && 2 * i !in faults {
      DroppingPendingKeepsFiles(cfg, d, id);
      LosingRowKeepsFiles(cfg, d.(objects := d.objects - {d.attachments[id].objectKey}), id);
    }
  }

  lemma {:induction false} SweepKeepsFiles(cfg: Config, d: Db, rows: seq<Uuid>, i: nat, faults: set<nat>)
    requires i <= |rows| && AttachmentsOk(cfg, d)
    requires forall k | 0 <= k < |rows| && rows[k] in d.attachments :: d.attachments[rows[k]].status.Pending?
    ensures var s := Attachments.SweepFrom(d, rows, i, faults);
            AttachmentsOk(cfg, s) && OnlyPendingLost(d.attachments, s.attachments)
    decreases |rows| - i
  {
    if i < |rows| {
      SweepOneKeepsFiles(cfg, d, rows[i], i, faults);
      SweepKeepsFiles(cfg, Attachments.SweepOne(d, rows[i], i, faults), rows, i + 1, faults);
    }
  }

  predicate OnFiles(eff: Effect) {
    eff.FileAdded? || eff.FileCompleted? || eff.FileRemoved? || eff.ObjectPut? || eff.ObjectDropped? || eff.Swept?
  }

  /** Every other effect leaves rows and objects, and the notes they belong to. */
  lemma OtherEffectsKeepFiles(cfg: Config, d: Db, actor: Option<Uuid>, eff: Effect)
    requires Allowed(cfg, d, actor, eff) && !OnFiles(eff)
    ensures var next := Apply(d, eff);
            && next.attachments == d.attachments && next.objects == d.objects
            && (forall n | n in d.notes :: n in next.notes)
  {
  }

  lemma FileEffectsKeepFiles(cfg: Config, d: Db, actor: Option<Uuid>, eff: Effect)
    requires AttachmentsOk(cfg, d) && Allowed(cfg, d, actor, eff) && OnFiles(eff) && !eff.Swept?
    ensures AttachmentsOk(cfg, Apply(d, eff))
  {
    var next := Apply(d, eff);
    forall a | a in next.attachments
      ensures AttachmentOk(cfg, next, next.attachments[a])
    {
      if a in d.attachments {
        assert AttachmentOk(cfg, d, d.attachments[a]);
      }
    }
  }

  lemma AttachmentsStayOk(cfg: Config, d: Db, actor: Option<Uuid>, eff: Effect)
    requires AttachmentsOk(cfg, d) && Allowed(cfg, d, actor, eff)
    ensures AttachmentsOk(cfg, Apply(d, eff))
  {
    if eff.Swept? {
      SweepKeepsFiles(cfg, d, eff.rows, 0, eff.faults);
    } else if OnFiles(eff) {
      FileEffectsKeepFiles(cfg, d, actor, eff);
    } else {
      OtherEffectsKeepFiles(cfg, d, actor, eff);
      assert forall a | a in d.attachments :: AttachmentOk(cfg, d, d.attachments[a]);
    }
  }

  /** No effect but a deletion under its check takes away what a body names. */
  lemma ReadyFilesStay(cfg: Config, d: Db, actor: Option<Uuid>, eff: Effect)
    requires AttachmentsOk(cfg, d) && Allowed(cfg, d, actor, eff) && OnFiles(eff)
    ensures var next := Apply(d, eff);
            && next.notes == d.notes
            && forall a | a in d.attachments && d.attachments[a].status.Ready? && !(eff.FileRemoved? && a == eff.id) ::
                 a in next.attachments && next.attachments[a] == d.attachments[a]
  {
    if eff.Swept? {
      SweepChangesFilesOnly(d, eff.rows, 0, eff.faults);
      SweepKeepsFiles(cfg, d, eff.rows, 0, eff.faults);
    }
  }

  lemma ReferencesStayOk(cfg: Config, d: Db, actor: Option<Uuid>, eff: Effect)
    requires ReferencesOk(d) && AttachmentsOk(cfg, d) && Allowed(cfg, d, actor, eff)
    ensures ReferencesOk(Apply(d, eff))
  {
    if OnFiles(eff) {
      ReadyFilesStay(cfg, d, actor, eff);
      assert forall n | n in d.notes :: Notes.ReferencesUsable(d.attachments, n, d.notes[n].body);
    } else {
      OtherEffectsKeepFiles(cfg, d, actor, eff);
      assert forall n | n in d.notes :: Notes.ReferencesUsable(d.attachments, n, d.notes[n].body);
    }
  }

  lemma AddressesStayOk(cfg: Config, d: Db, actor: Option<Uuid>, eff: Effect)
    requires AddressesOk(d) && Allowed(cfg, d, actor, eff)
    ensures AddressesOk(Apply(d, eff))
  {
    if eff.Swept? {
      SweepChangesFilesOnly(d, eff.rows, 0, eff.faults);
    }
  }

  lemma EventKeepsInv(cfg: Config, db: Db, e: Event)
    requires Inv(cfg, db) && Enabled(db, e)
    ensures Inv(cfg, Next(cfg, db, e))
  {
    var eff := EventHasEffect(cfg, db, e);
    var d := Tick(db);
    assert Inv(cfg, d);
    AddressesStayOk(cfg, d, Actor(e), eff);
    NotesStayOk(cfg, d, Actor(e), eff);
    GrantsStayOk(cfg, d, Actor(e), eff);
    TeamsStayOk(cfg, d, Actor(e), eff);
    AttachmentsStayOk(cfg, d, Actor(e), eff);
    ReferencesStayOk(cfg, d, Actor(e), eff);
  }

  lemma {:induction false} RunKeepsInv(cfg: Config, db: Db, events: seq<Event>)
    requires Inv(cfg, db) && Run(cfg, db, events)
    ensures Inv(cfg, After(cfg, db, events))
    decreases |events|
  {
    if events != [] {
      EventKeepsInv(cfg, db, events[0]);
      RunKeepsInv(cfg, Next(cfg, db, events[0]), events[1..]);
    }
  }

  lemma ReachableIsOk(cfg: Config, db: Db)
    requires Reachable(cfg, db)
    ensures Inv(cfg, db)
  {
    var events :| Run(cfg, EMPTY, events) && After(cfg, EMPTY, events) == db;
    RunKeepsInv(cfg, EMPTY, events);
  }
}
