/** How access spreads: no role on a note rises unless its owner acts or somebody joins a team that
    holds a grant on it. */
module Confinement {
  import opened Wrappers
  import opened Uuids
  import opened Schema
  import opened Machine
  import opened Effects
  import opened Integrity
  import opened Authz
  import opened Access
  import opened Replies
  import Accounts
  import Teams

  /** The user becomes a member of a team that holds a grant on the note. */
  ghost predicate Joins(db: Db, next: Db, user: Uuid, note: Uuid, team: Uuid) {
    && Membership(team, user) !in db.members && Membership(team, user) in next.members
    && GrantKey(note, TeamPrincipal(team)) in db.shares
  }

  ghost predicate JoinsGrantedTeam(db: Db, next: Db, user: Uuid, note: Uuid) {
    exists team :: Joins(db, next, user, note, team)
  }

  lemma EffectShrinksGrants(cfg: Config, d: Db, actor: Option<Uuid>, eff: Effect, k: GrantKey)
    requires Allowed(cfg, d, actor, eff) && k.note in d.notes
    ensures var next := Apply(d, eff);
            && k.note in next.notes && next.notes[k.note].owner == d.notes[k.note].owner
            && (actor != Some(d.notes[k.note].owner) ==>
                  k in next.shares ==> k in d.shares && next.shares[k] == d.shares[k])
  {
    if !OnGrants(eff) {
      OtherEffectsKeepGrants(cfg, d, actor, eff);
    }
  }

  /** Without the note's owner, a grant is never added or changed; the owner stays the owner. */
  lemma GrantsOnlyShrink(cfg: Config, db: Db, e: Event, k: GrantKey)
    requires Enabled(db, e) && k.note in db.notes
    ensures var next := Next(cfg, db, e);
            && k.note in next.notes && next.notes[k.note].owner == db.notes[k.note].owner
            && (Actor(e) != Some(db.notes[k.note].owner) ==>
                  k in next.shares ==> k in db.shares && next.shares[k] == db.shares[k])
  {
    var eff := EventHasEffect(cfg, db, e);
    EffectShrinksGrants(cfg, Tick(db), Actor(e), eff, k);
  }

  /** One step raises a user's role only if the owner takes it, or if it makes the user a member of
      a team with a grant. */
  lemma RoleRisesOnlyByOwnerOrJoining(cfg: Config, db: Db, e: Event, user: Uuid, note: Uuid)
    requires Enabled(db, e) && note in db.notes
    ensures RoleOn(Next(cfg, db, e), user, note) > RoleOn(db, user, note) ==>
              Actor(e) == Some(db.notes[note].owner) || JoinsGrantedTeam(db, Next(cfg, db, e), user, note)
  {
    var next := Next(cfg, db, e);
    GrantsOnlyShrink(cfg, db, e, GrantKey(note, UserPrincipal(user)));
    var role := RoleOn(next, user, note);
    if role > RoleOn(db, user, note) && Actor(e) != Some(db.notes[note].owner) {
      RoleIsStrongestGrant(next, user, note, role);
      var k :| Matches(next, user, note, k) && Rank(next.shares[k].role) >= role;
      GrantsOnlyShrink(cfg, db, e, k);
      RoleIsStrongestGrant(db, user, note, role);
      assert !Reaches(db, user, k.principal);
      assert k == GrantKey(note, TeamPrincipal(k.principal.id));
      assert Joins(db, next, user, note, k.principal.id);
    }
  }

  /** No step of the run is the owner's, and none makes the user a member of a team with a grant. */
  ghost predicate LeavesAlone(cfg: Config, db: Db, events: seq<Event>, user: Uuid, note: Uuid)
    requires note in db.notes
    decreases |events|
  {
    events == [] ||
    (var next := Next(cfg, db, events[0]);
     && Enabled(db, events[0])
     && Actor(events[0]) != Some(db.notes[note].owner)
     && !JoinsGrantedTeam(db, next, user, note)
     && note in next.notes
     && LeavesAlone(cfg, next, events[1..], user, note))
  }

  /** Over any such run the user's role on the note does not rise. */
  lemma {:induction false} RolesNeverRise(cfg: Config, db: Db, events: seq<Event>, user: Uuid, note: Uuid)
    requires note in db.notes && LeavesAlone(cfg, db, events, user, note)
    ensures RoleOn(After(cfg, db, events), user, note) <= RoleOn(db, user, note)
    decreases |events|
  {
    if events != [] {
      var next := Next(cfg, db, events[0]);
      RoleRisesOnlyByOwnerOrJoining(cfg, db, events[0], user, note);
      RolesNeverRise(cfg, next, events[1..], user, note);
    }
  }

  /** While grants name only what exists, a new team or a new account gives nobody anything. */
  lemma NewPrincipalsRaiseNobody(cfg: Config, db: Db, step: Step, faults: Faults, user: Uuid, note: Uuid)
    requires GrantsOk(db) && note in db.notes && (step.CreateTeam? || step.Register?)
    ensures RoleOn(Next(cfg, db, Event(step, faults)), user, note) <= RoleOn(db, user, note)
  {
    var next := Next(cfg, db, Event(step, faults));
    var role := RoleOn(next, user, note);
    if db.notes[note].owner != user && role > ROLE_NONE {
      RoleIsStrongestGrant(next, user, note, role);
      var k :| Matches(next, user, note, k) && Rank(next.shares[k].role) >= role;
      NewPrincipalsMatchNothing(cfg, db, step, faults, user, note, k);
      RoleIsStrongestGrant(db, user, note, role);
    }
  }

  lemma NewPrincipalsMatchNothing(cfg: Config, db: Db, step: Step, faults: Faults, user: Uuid, note: Uuid, k: GrantKey)
    requires GrantsOk(db) && (step.CreateTeam? || step.Register?)
    requires Matches(Next(cfg, db, Event(step, faults)), user, note, k)
    ensures Matches(db, user, note, k)
    ensures Next(cfg, db, Event(step, faults)).shares == db.shares
            && Next(cfg, db, Event(step, faults)).notes == db.notes
  {
    var next := Next(cfg, db, Event(step, faults));
    NewPrincipalsAre(cfg, db, step, faults);
    assert GrantOk(db, k, next.shares[k]);
  }

  /** The only new membership is in a team of a new id. */
  ghost predicate AddsOnlyTeams(db: Db, next: Db) {
    && next.shares == db.shares && next.notes == db.notes
    && forall m | m in next.members && m !in db.members :: m.team !in db.teams
  }

  lemma CreationAddsTeam(db: Db, caller: Uuid, id: Uuid, name: string, faults: Faults)
    ensures AddsOnlyTeams(db, Teams.Create(db, caller, id, name, faults).db)
  {
  }

  lemma RegistrationAddsNone(db: Db, id: Uuid, email: string, name: string, faults: Faults)
    ensures AddsOnlyTeams(db, Accounts.Register(db, id, email, name, faults).db)
  {
  }

  lemma NewPrincipalsAre(cfg: Config, db: Db, step: Step, faults: Faults)
    requires step.CreateTeam? || step.Register?
    ensures AddsOnlyTeams(db, Next(cfg, db, Event(step, faults)))
  {
    if step.CreateTeam? {
      CreationAddsTeam(db, step.caller, step.id, step.name, faults);
    } else {
      RegistrationAddsNone(db, step.id, step.email, step.displayName, faults);
    }
  }

  /** Were a grant to name a missing team, whoever created a team of that id would hold it. */
  lemma DanglingGrantWouldResolve(cfg: Config, db: Db, user: Uuid, team: Uuid, name: string, note: Uuid)
    requires note in db.notes && db.notes[note].owner != user && user in db.users
    requires team !in db.teams && GrantKey(note, TeamPrincipal(team)) in db.shares
    requires Teams.ValidName(name).Some?
    ensures var role := Rank(db.shares[GrantKey(note, TeamPrincipal(team))].role);
            RoleOn(Next(cfg, db, Event(CreateTeam(user, team, name), {})), user, note) >= role
  {
    var k := GrantKey(note, TeamPrincipal(team));
    var next := Next(cfg, db, Event(CreateTeam(user, team, name), {}));
    var role := Rank(db.shares[k].role);
    assert Matches(next, user, note, k);
    if role > ROLE_NONE {
      RoleIsStrongestGrant(next, user, note, role);
    }
  }

  /** Leaving a team takes its grants away at once: only other grants still count. */
  lemma LeavingDropsTeamGrants(cfg: Config, db: Db, user: Uuid, team: Uuid, note: Uuid, role: Role)
    requires note in db.notes && db.notes[note].owner != user && role > ROLE_NONE
    requires Teams.Leave(db, user, team, {}).reply == Done(204)
    ensures RoleOn(Next(cfg, db, Event(Leave(user, team), {})), user, note) >= role <==>
            exists k ::
              Matches(db, user, note, k) && Rank(db.shares[k].role) >= role && k.principal != TeamPrincipal(team)
  {
    var next := Next(cfg, db, Event(Leave(user, team), {}));
    RoleIsStrongestGrant(next, user, note, role);
    assert forall k ::
        Matches(next, user, note, k) <==> Matches(db, user, note, k) && k.principal != TeamPrincipal(team);
  }
}
