/** What sharing and membership changes do to roles, and when they are refused. */
module Grants {
  import opened Uuids
  import opened Schema
  import opened Authz
  import opened Access
  import opened Replies
  import opened Integrity
  import Sql
  import Accounts
  import Shares
  import Teams

  /** Somebody the owner may share a note with: a live account other than their own, or a team they
      belong to. */
  predicate Shareable(db: Db, owner: Uuid, p: Principal) {
    p.id != NIL &&
    match p
    case UserPrincipal(u) => u != owner && Accounts.Live(db.users, u)
    case TeamPrincipal(t) => t in db.teams && Membership(t, owner) in db.members
  }

  function KindOf(p: Principal): string {
    if p.UserPrincipal? then "user" else "team"
  }

  lemma TickKeepsLoad(db: Db, user: Uuid, note: Uuid, action: Action)
    ensures Load(Tick(db), user, note, action) == Load(db, user, note, action)
  {
    assert MatchingRanks(Tick(db), user, note) == MatchingRanks(db, user, note);
  }

  /** A share is accepted exactly when the caller owns the note, it is not deleted, the role can be
      granted, the principal is one to share with, and the write goes through. */
  lemma ShareAcceptedWhen(db: Db, caller: Uuid, note: Uuid, p: Principal, role: string, faults: Faults)
    ensures Shares.Upsert(db, caller, note, KindOf(p), p.id, role, faults).reply == Done(204) <==>
            && note in db.notes && db.notes[note].owner == caller && db.notes[note].deletedAt.None?
            && role in {"viewer", "editor"} && Shareable(db, caller, p) && 0 !in faults
  {
    TickKeepsLoad(db, caller, note, Action.Share);
    LoadDecides(db, caller, note, Action.Share);
    if note in db.notes && db.notes[note].owner != caller {
      RoleIsStrongestGrant(db, caller, note, ROLE_OWNER);
    }
  }

  /** After a share each user's role is the stronger of what it gives them, if it reaches them, and
      of what the other grants gave them before. */
  lemma ShareGivesRole(db: Db, caller: Uuid, note: Uuid, p: Principal, role: string, faults: Faults, user: Uuid,
                      least: Role)
    requires Shares.Upsert(db, caller, note, KindOf(p), p.id, role, faults).reply == Done(204)
    requires user != caller && least > ROLE_NONE
    ensures var next := Shares.Upsert(db, caller, note, KindOf(p), p.id, role, faults).db;
            RoleOn(next, user, note) >= least <==>
              || (Reaches(db, user, p) && Rank(role) >= least)
              || (exists k :: Matches(db, user, note, k) && k.principal != p && Rank(db.shares[k].role) >= least)
  {
    ShareAcceptedWhen(db, caller, note, p, role, faults);
    var next := Shares.Upsert(db, caller, note, KindOf(p), p.id, role, faults).db;
    var key := GrantKey(note, p);
    RoleIsStrongestGrant(next, user, note, least);
    assert forall k :: Matches(next, user, note, k) <==>
        (k == key && Reaches(db, user, p)) || (Matches(db, user, note, k) && k.principal != p);
    if Reaches(db, user, p) && Rank(role) >= least {
      assert Matches(next, user, note, key) && next.shares[key].role == role;
    }
    assert forall k | k in db.shares && k != key :: next.shares[k] == db.shares[k];
  }

  /** Revoking undoes a share that was not there before: every grant, and so every role, is as it was. */
  lemma RevokeUndoesShare(db: Db, caller: Uuid, note: Uuid, p: Principal, role: string)
    requires GrantKey(note, p) !in db.shares
    requires Shares.Upsert(db, caller, note, KindOf(p), p.id, role, {}).reply == Done(204)
    ensures var shared := Shares.Upsert(db, caller, note, KindOf(p), p.id, role, {}).db;
            var r := Shares.Revoke(shared, caller, note, KindOf(p), p.id, {});
            r.reply == Done(204) && r.db == db.(now := db.now + 2)
  {
    ShareAcceptedWhen(db, caller, note, p, role, {});
    var shared := Shares.Upsert(db, caller, note, KindOf(p), p.id, role, {}).db;
    TickKeepsLoad(shared, caller, note, Action.RevokeShare);
    LoadDecides(shared, caller, note, Action.RevokeShare);
    assert shared.shares == db.shares[GrantKey(note, p) := shared.shares[GrantKey(note, p)]];
    assert shared.shares - {GrantKey(note, p)} == db.shares;
  }

  /** Sharing with a principal who already has a grant replaces its role and keeps its date, and
      the role given last decides, whichever came first. */
  lemma LastShareDecides(db: Db, caller: Uuid, note: Uuid, p: Principal, first: string, second: string)
    requires Shares.Upsert(db, caller, note, KindOf(p), p.id, first, {}).reply == Done(204)
    requires second in {"viewer", "editor"}
    ensures var once := Shares.Upsert(db, caller, note, KindOf(p), p.id, first, {}).db;
            var twice := Shares.Upsert(once, caller, note, KindOf(p), p.id, second, {});
            var key := GrantKey(note, p);
            && twice.reply == Done(204) && |twice.db.shares| == |once.shares|
            && twice.db.shares == once.shares[key := once.shares[key].(role := second)]
            && once.shares[key].role == first && once.shares[key].grantedBy == caller
  {
    ShareAcceptedWhen(db, caller, note, p, first, {});
    var once := Shares.Upsert(db, caller, note, KindOf(p), p.id, first, {}).db;
    ShareAcceptedWhen(once, caller, note, p, second, {});
    var twice := Shares.Upsert(once, caller, note, KindOf(p), p.id, second, {}).db;
    assert twice.shares.Keys == once.shares.Keys;
    assert |twice.shares| == |twice.shares.Keys| && |once.shares| == |once.shares.Keys|;
  }

  /** The user is an admin of the team and nobody else is. */
  ghost predicate OnlyAdmin(db: Db, team: Uuid, user: Uuid) {
    IsAdmin(db.members, team, user) && forall other :: IsAdmin(db.members, team, other) ==> other == user
  }

  /** The count that `guardLastAdmin` looks at finds exactly the only admin. */
  lemma GuardFindsOnlyAdmin(db: Db, team: Uuid, user: Uuid)
    ensures Teams.StrandsTeam(db, team, user) <==> OnlyAdmin(db, team, user)
  {
    var m := Membership(team, user);
    var admins := Sql.TeamAdmins(db.members, team);
    if IsAdmin(db.members, team, user) {
      assert m in admins;
      if |admins| > 1 {
        AnotherAdmin(db.members, m);
      } else {
        assert |admins - {m}| == 0;
        forall other | IsAdmin(db.members, team, other)
          ensures other == user
        {
          assert Membership(team, other) in admins;
          assert Membership(team, other) !in admins - {m};
        }
      }
    }
  }

  /** A member leaves unless they are the only admin, and takes nobody else along. */
  lemma LeaveAcceptedWhen(db: Db, caller: Uuid, team: Uuid, faults: Faults)
    ensures var r := Teams.Leave(db, caller, team, faults);
            && (r.reply == Done(204) <==>
                  Membership(team, caller) in db.members && !OnlyAdmin(db, team, caller) && !AnyFails(faults, 2))
            && (r.reply == Refused(409) <==> OnlyAdmin(db, team, caller))
            && r.db == Tick(db).(members :=
                 if r.reply == Done(204) then db.members - {Membership(team, caller)} else db.members)
  {
    GuardFindsOnlyAdmin(Tick(db), team, caller);
    assert AnyFails(faults, 2) <==> 0 in faults || 1 in faults;
    assert OnlyAdmin(Tick(db), team, caller) <==> OnlyAdmin(db, team, caller);
  }

  /** An admin sets a member's role unless that would demote the only admin. */
  lemma MemberRoleIsSetWhen(db: Db, caller: Uuid, team: Uuid, user: Uuid, role: string, faults: Faults)
    requires TeamsOk(db)
    ensures var r := Teams.AddMember(db, caller, team, user, role, faults);
            && (r.reply == Done(204) <==>
                  && IsAdmin(db.members, team, caller) && role in {"", "member", "admin"}
                  && user != NIL && user in db.users
                  && !(role != "admin" && OnlyAdmin(db, team, user)) && !AnyFails(faults, 2))
            && (r.reply == Done(204) ==>
                  && (IsAdmin(r.db.members, team, user) <==> role == "admin")
                  && Membership(team, user) in r.db.members
                  && forall m | m != Membership(team, user) ::
                       (m in r.db.members <==> m in db.members)
                           && (m in db.members ==> r.db.members[m] == db.members[m]))
            && (r.reply != Done(204) ==> r.db == Tick(db))
  {
    GuardFindsOnlyAdmin(Tick(db), team, user);
    assert AnyFails(faults, 2) <==> 0 in faults || 1 in faults;
    assert OnlyAdmin(Tick(db), team, user) <==> OnlyAdmin(db, team, user);
  }

  /** The owner revokes a grant that is there; afterwards exactly the other grants decide. */
  lemma RevocationAcceptedWhen(db: Db, caller: Uuid, note: Uuid, p: Principal, faults: Faults, user: Uuid, least: Role)
    requires user != caller && least > ROLE_NONE
    ensures var r := Shares.Revoke(db, caller, note, KindOf(p), p.id, faults);
            && (r.reply == Done(204) <==>
                  && note in db.notes && db.notes[note].owner == caller && db.notes[note].deletedAt.None?
                  && GrantKey(note, p) in db.shares && 0 !in faults)
            && (r.reply != Done(204) ==> r.db == Tick(db))
            && (r.reply == Done(204) ==>
                  (RoleOn(r.db, user, note) >= least <==>
                   exists k :: Matches(db, user, note, k) && k.principal != p && Rank(db.shares[k].role) >= least))
  {
    TickKeepsLoad(db, caller, note, Action.RevokeShare);
    LoadDecides(db, caller, note, Action.RevokeShare);
    if note in db.notes && db.notes[note].owner != caller {
      RoleIsStrongestGrant(db, caller, note, ROLE_OWNER);
    }
    var r := Shares.Revoke(db, caller, note, KindOf(p), p.id, faults);
    if r.reply == Done(204) {
      RoleIsStrongestGrant(r.db, user, note, least);
      assert forall k :: Matches(r.db, user, note, k) <==> Matches(db, user, note, k) && k.principal != p;
    }
  }

  /** A team goes with its memberships and with every grant to it, or stays as it is. */
  lemma TeamDeletionIsWhole(db: Db, caller: Uuid, team: Uuid, faults: Faults)
    requires TeamsOk(db)
    ensures var r := Teams.Delete(db, caller, team, faults);
            && (r.reply == Done(204) <==> IsAdmin(db.members, team, caller) && !AnyFails(faults, 3))
            && (r.reply != Done(204) ==> r.db == Tick(db))
            && (r.reply == Done(204) ==>
                  && team !in r.db.teams
                  && (forall m | m in db.members :: m in r.db.members <==> m.team != team)
                  && (forall k | k in db.shares :: k in r.db.shares <==> k.principal != TeamPrincipal(team))
                  && (forall m | m in r.db.members :: m in db.members && r.db.members[m] == db.members[m])
                  && (forall k | k in r.db.shares :: k in db.shares && r.db.shares[k] == db.shares[k])
                  && r.db.notes == db.notes && r.db.users == db.users)
  {
    assert AnyFails(faults, 3) <==> 0 in faults || 1 in faults || 2 in faults;
    assert AnyFails(faults, 2) <==> 0 in faults || 1 in faults;
  }

  /** An account goes with every grant to it, or stays as it is; its notes and memberships stay, and
      nobody else's role changes. */
  lemma AccountDeletionIsWhole(db: Db, caller: Uuid, faults: Faults)
    ensures var r := Accounts.DeleteMe(db, caller, faults);
            && (r.reply == Done(204) <==> Accounts.Live(db.users, caller) && !AnyFails(faults, 3))
            && (r.reply != Done(204) ==> r.db == Tick(db))
            && (r.reply == Done(204) ==>
                  && !Accounts.Live(r.db.users, caller)
                  && (forall k | k in db.shares :: k in r.db.shares <==> k.principal != UserPrincipal(caller))
                  && r.db.notes == db.notes && r.db.members == db.members
                  && forall u: Uuid, note: Uuid | u != caller :: RoleOn(r.db, u, note) == RoleOn(db, u, note))
  {
    var r := Accounts.DeleteMe(db, caller, faults);
    if r.reply == Done(204) {
      forall u: Uuid, note: Uuid | u != caller
        ensures RoleOn(r.db, u, note) == RoleOn(db, u, note)
      {
        OtherUsersKeepMatches(db, r.db, caller, u, note);
      }
    }
  }

  lemma OtherUsersKeepMatches(db: Db, next: Db, gone: Uuid, user: Uuid, note: Uuid)
    requires next.shares == Sql.DeleteGrantsTo(db.shares, UserPrincipal(gone)) && user != gone
    requires next.notes == db.notes && next.members == db.members
    ensures RoleOn(next, user, note) == RoleOn(db, user, note)
  {
    forall k
      ensures Matches(next, user, note, k) <==> Matches(db, user, note, k)
      ensures Matches(next, user, note, k) ==> next.shares[k] == db.shares[k]
    {
    }
    assert MatchingRanks(next, user, note) == MatchingRanks(db, user, note);
  }

  /** A new team has its creator as its only member and admin. */
  lemma NewTeamHasItsCreator(db: Db, caller: Uuid, id: Uuid, name: string, faults: Faults)
    requires TeamsOk(db)
    ensures var r := Teams.Create(db, caller, id, name, faults);
            && (r.reply == Done(201) <==>
                  Teams.ValidName(name).Some? && id !in db.teams && caller in db.users && !AnyFails(faults, 3))
            && (r.reply == Done(201) ==>
                  && OnlyAdmin(r.db, id, caller)
                  && (forall m | m in r.db.members && m.team == id :: m.user == caller)
                  && (forall m | m in db.members :: m in r.db.members && r.db.members[m] == db.members[m]))
            && (r.reply != Done(201) ==> r.db == Tick(db))
  {
    assert forall m | m in db.members :: m.team in db.teams;
  }

  lemma NewTeamIsSound(db: Db, caller: Uuid, id: Uuid, name: string)
    requires TeamsOk(db) && Teams.Create(db, caller, id, name, {}).reply == Done(201)
    ensures TeamsOk(Teams.Create(db, caller, id, name, {}).db)
  {
    var made := Teams.Create(db, caller, id, name, {}).db;
    NewTeamHasItsCreator(db, caller, id, name, {});
    forall t | t in made.teams
      ensures HasAdmin(made.members, t)
    {
      if t == id {
        assert IsAdmin(made.members, t, caller);
      } else {
        var u :| IsAdmin(db.members, t, u);
        assert IsAdmin(made.members, t, u);
      }
    }
  }

  /** Without the memberships in a team and the grants to it, the tables are those before it was created. */
  lemma NothingElseIsLost(db: Db, made: Db, gone: Db, caller: Uuid, id: Uuid)
    requires TeamsOk(db) && GrantsOk(db) && id !in db.teams
    requires made.members == db.members[Membership(id, caller) := Admin] && made.shares == db.shares
    requires gone.members == Sql.MembersWithout(made.members, id)
    requires gone.shares == Sql.DeleteGrantsTo(made.shares, TeamPrincipal(id))
    ensures gone.members == db.members && gone.shares == db.shares
  {
    NothingNamesNewTeam(db, id);
  }

  /** Creating a team and deleting it gives back every table: nothing else in them names its id. */
  lemma DeletionUndoesCreation(db: Db, caller: Uuid, id: Uuid, name: string)
    requires TeamsOk(db) && GrantsOk(db) && Teams.Create(db, caller, id, name, {}).reply == Done(201)
    ensures var made := Teams.Create(db, caller, id, name, {}).db;
            Teams.Delete(made, caller, id, {}) == Response(db.(now := db.now + 2), Done(204))
  {
    var made := Teams.Create(db, caller, id, name, {}).db;
    NewTeamHasItsCreator(db, caller, id, name, {});
    NewTeamIsSound(db, caller, id, name);
    TeamDeletionIsWhole(made, caller, id, {});
    var gone := Teams.Delete(made, caller, id, {}).db;
    NothingElseIsLost(db, made, gone, caller, id);
    assert gone.teams == made.teams - {id} == db.teams;
  }

  lemma NothingNamesNewTeam(db: Db, id: Uuid)
    requires TeamsOk(db) && GrantsOk(db) && id !in db.teams
    ensures forall m | m in db.members :: m.team != id
    ensures forall k | k in db.shares :: k.principal != TeamPrincipal(id)
  {
    forall k | k in db.shares
      ensures k.principal != TeamPrincipal(id)
    {
      assert GrantOk(db, k, db.shares[k]);
    }
  }

  /** An admin removes the member named, unless that is the only admin, and nobody else. */
  lemma MemberRemovalAcceptedWhen(db: Db, caller: Uuid, team: Uuid, user: Uuid, faults: Faults)
    ensures var r := Teams.RemoveMember(db, caller, team, user, faults);
            && (r.reply == Done(204) <==>
                  && IsAdmin(db.members, team, caller) && Membership(team, user) in db.members
                  && !OnlyAdmin(db, team, user) && !AnyFails(faults, 2))
            && (r.reply == Refused(409) <==> IsAdmin(db.members, team, caller) && OnlyAdmin(db, team, user))
            && r.db == Tick(db).(members :=
                 if r.reply == Done(204) then db.members - {Membership(team, user)} else db.members)
  {
    GuardFindsOnlyAdmin(Tick(db), team, user);
    assert AnyFails(faults, 2) <==> 0 in faults || 1 in faults;
    assert OnlyAdmin(Tick(db), team, user) <==> OnlyAdmin(db, team, user);
  }

  /** Without a membership, exactly the grants not made to that team decide the role. */
  lemma RoleWithoutMembership(db: Db, next: Db, user: Uuid, team: Uuid, note: Uuid, least: Role)
    requires next.members == db.members - {Membership(team, user)}
    requires next.shares == db.shares && next.notes == db.notes
    requires note in db.notes && db.notes[note].owner != user && least > ROLE_NONE
    ensures RoleOn(next, user, note) >= least <==>
            exists k ::
              Matches(db, user, note, k) && Rank(db.shares[k].role) >= least && k.principal != TeamPrincipal(team)
  {
    RoleIsStrongestGrant(next, user, note, least);
    assert forall k ::
        Matches(next, user, note, k) <==> Matches(db, user, note, k) && k.principal != TeamPrincipal(team);
  }

  /** Whoever is removed loses what the team was granted at once, and keeps everything else. */
  lemma RemovalDropsTeamGrants(db: Db, caller: Uuid, team: Uuid, user: Uuid, faults: Faults, note: Uuid, least: Role)
    requires Teams.RemoveMember(db, caller, team, user, faults).reply == Done(204)
    requires note in db.notes && db.notes[note].owner != user && least > ROLE_NONE
    ensures RoleOn(Teams.RemoveMember(db, caller, team, user, faults).db, user, note) >= least <==>
            exists k ::
              Matches(db, user, note, k) && Rank(db.shares[k].role) >= least && k.principal != TeamPrincipal(team)
  {
    MemberRemovalAcceptedWhen(db, caller, team, user, faults);
    RoleWithoutMembership(db, Teams.RemoveMember(db, caller, team, user, faults).db, user, team, note, least);
  }

  /** What an accepted share stores: the role, from its owner, with the date of the first share; every
      other grant and table stays. */
  lemma ShareIsStored(db: Db, caller: Uuid, note: Uuid, p: Principal, role: string, faults: Faults)
    requires Shares.Upsert(db, caller, note, KindOf(p), p.id, role, faults).reply == Done(204)
    ensures var next := Shares.Upsert(db, caller, note, KindOf(p), p.id, role, faults).db;
            var key := GrantKey(note, p);
            && key in next.shares && next.shares[key].role == role && next.shares[key].grantedBy == caller
            && next.shares[key].createdAt == (if key in db.shares then db.shares[key].createdAt else db.now + 1)
            && next == Tick(db).(shares := db.shares[key := next.shares[key]])
  {
    ShareAcceptedWhen(db, caller, note, p, role, faults);
  }
}
