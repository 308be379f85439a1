/** What a caller can learn: the list and the single read agree, and no reply depends on a note
    that is hidden from the caller. */
module Visibility {
  import opened Wrappers
  import opened Uuids
  import opened Schema
  import opened Authz
  import opened Access
  import opened Listing
  import opened Keyset
  import Integrity
  import Notes
  import Shares
  import Attachments

  /** A filter with nothing in it but the caller and the page. */
  predicate Unfiltered(f: ListFilter) {
    && f.query == "" && f.tags == [] && f.owner.None? && f.team.None?
    && !f.sharedWithMe && !f.deleted
  }

  lemma GrantMeansRole(db: Db, user: Uuid, id: Uuid)
    requires Integrity.GrantsOk(db) && id in db.notes
    ensures EffectiveRole(db, user, id) > ROLE_NONE <==>
            db.notes[id].owner == user || exists k :: Matches(db, user, id, k)
  {
    if db.notes[id].owner != user {
      RoleIsStrongestGrant(db, user, id, ROLE_VIEWER);
      forall k | Matches(db, user, id, k)
        ensures Rank(db.shares[k].role) >= ROLE_VIEWER
      {
        assert Integrity.GrantOk(db, k, db.shares[k]);
      }
    }
  }

  /** The plain list holds exactly the notes that can be read one by one, with the same role. */
  lemma ListAgreesWithRead(db: Db, search: Search, f: ListFilter, id: Uuid)
    requires Integrity.GrantsOk(db) && Unfiltered(f)
    ensures Selected(db, search, f, id) <==> Load(db, f.user, id, Read).Ok?
    ensures Selected(db, search, f, id) ==>
              RowOf(db, search, f, id).role == Load(db, f.user, id, Read).value.role
              && RowOf(db, search, f, id).note == Load(db, f.user, id, Read).value.note
  {
    if id in db.notes {
      GrantMeansRole(db, f.user, id);
    }
  }

  /** No filter shows more than that, except a caller's own deleted notes. */
  lemma FiltersOnlyNarrow(db: Db, search: Search, f: ListFilter, id: Uuid)
    requires Integrity.GrantsOk(db) && Selected(db, search, f, id)
    ensures if f.deleted then db.notes[id].owner == f.user && db.notes[id].deletedAt.Some?
            else Load(db, f.user, id, Read).Ok?
  {
    GrantMeansRole(db, f.user, id);
  }

  /** Were a stored role to be neither viewer nor editor, the list would show what a read hides. */
  lemma UnknownRoleWouldSplitThem(db: Db, search: Search, f: ListFilter, k: GrantKey)
    requires Unfiltered(f) && k.note in db.notes && db.notes[k.note].deletedAt.None? && db.notes[k.note].owner != f.user
    requires Matches(db, f.user, k.note, k) && Rank(db.shares[k].role) == ROLE_NONE
    requires forall j | Matches(db, f.user, k.note, j) :: j == k
    ensures Selected(db, search, f, k.note) && Load(db, f.user, k.note, Read) == Err(404)
  {
    if EffectiveRole(db, f.user, k.note) > ROLE_NONE {
      RoleIsStrongestGrant(db, f.user, k.note, ROLE_VIEWER);
    }
  }

  /** The caller has no role on the note, or it is deleted and someone else's. */
  predicate Hidden(db: Db, user: Uuid, id: Uuid) {
    || RoleOn(db, user, id) == ROLE_NONE
    || (db.notes[id].deletedAt.Some? && db.notes[id].owner != user)
  }

  /** Note, grants and attachments are the same in both. */
  ghost predicate SameNote(a: Db, b: Db, id: Uuid) {
    && id in a.notes && id in b.notes && a.notes[id] == b.notes[id]
    && (forall k: GrantKey | k.note == id :: k in a.shares <==> k in b.shares)
    && (forall k | k in a.shares && k.note == id && k in b.shares :: a.shares[k] == b.shares[k])
    && (forall f :: (f in a.attachments && a.attachments[f].note == id) <==>
        (f in b.attachments && b.attachments[f].note == id))
    && (forall f | f in a.attachments && a.attachments[f].note == id && f in b.attachments ::
        a.attachments[f] == b.attachments[f])
  }

  /** The two states differ only in notes hidden from the user, and in what is stored or the time. */
  ghost predicate SameToUser(a: Db, b: Db, user: Uuid) {
    && a.users == b.users && a.teams == b.teams && a.members == b.members
    && forall id :: SameNote(a, b, id) || (Hidden(a, user, id) && Hidden(b, user, id))
  }

  lemma SameRole(a: Db, b: Db, user: Uuid, id: Uuid)
    requires a.members == b.members && SameNote(a, b, id)
    ensures EffectiveRole(a, user, id) == EffectiveRole(b, user, id)
  {
    forall k
      ensures Matches(a, user, id, k) <==> Matches(b, user, id, k)
      ensures Matches(a, user, id, k) ==> a.shares[k] == b.shares[k]
    {
    }
    assert MatchingRanks(a, user, id) == MatchingRanks(b, user, id);
  }

  lemma SameLoad(a: Db, b: Db, user: Uuid, id: Uuid, action: Action)
    requires SameToUser(a, b, user) && action != Restore
    ensures Load(a, user, id, action) == Load(b, user, id, action)
    ensures Load(a, user, id, action).Ok? ==> SameNote(a, b, id)
  {
    LoadDecides(a, user, id, action);
    LoadDecides(b, user, id, action);
    if SameNote(a, b, id) {
      SameRole(a, b, user, id);
    }
  }

  lemma SharesDependOnVisible(a: Db, b: Db, user: Uuid, id: Uuid)
    requires SameToUser(a, b, user)
    ensures Shares.List(a, user, id) == Shares.List(b, user, id)
  {
    SameLoad(a, b, user, id, ListShares);
    if Load(a, user, id, ListShares).Ok? {
      assert forall k | k in a.shares && k.note == id :: Shares.ViewOf(a, k) == Shares.ViewOf(b, k);
      assert (set k | k in a.shares && k.note == id :: Shares.ViewOf(a, k))
          == (set k | k in b.shares && k.note == id :: Shares.ViewOf(b, k));
    }
  }

  lemma FilesDependOnVisible(a: Db, b: Db, user: Uuid, id: Uuid)
    requires SameToUser(a, b, user)
    ensures Attachments.List(a, user, id) == Attachments.List(b, user, id)
  {
    SameLoad(a, b, user, id, DownloadAttachment);
    if Load(a, user, id, DownloadAttachment).Ok? {
      assert Attachments.List(a, user, id).value == Attachments.List(b, user, id).value;
    }
  }

  /** A read, a share list and an attachment list say nothing about hidden notes. */
  lemma ReadsDependOnVisible(a: Db, b: Db, user: Uuid, id: Uuid)
    requires SameToUser(a, b, user)
    ensures Notes.Get(a, user, id) == Notes.Get(b, user, id)
    ensures Shares.List(a, user, id) == Shares.List(b, user, id)
    ensures Attachments.List(a, user, id) == Attachments.List(b, user, id)
  {
    SameLoad(a, b, user, id, Read);
    SharesDependOnVisible(a, b, user, id);
    FilesDependOnVisible(a, b, user, id);
  }

  lemma SelectedIsVisible(db: Db, search: Search, f: ListFilter, id: Uuid)
    requires Integrity.GrantsOk(db) && Selected(db, search, f, id)
    ensures !Hidden(db, f.user, id)
  {
    GrantMeansRole(db, f.user, id);
  }

  lemma SameSelected(a: Db, b: Db, search: Search, f: ListFilter, id: Uuid)
    requires Integrity.GrantsOk(a) && Integrity.GrantsOk(b) && SameToUser(a, b, f.user)
    ensures Selected(a, search, f, id) <==> Selected(b, search, f, id)
    ensures Selected(a, search, f, id) ==> SameNote(a, b, id)
  {
    if Selected(a, search, f, id) {
      SelectedIsVisible(a, search, f, id);
    }
    if Selected(b, search, f, id) {
      SelectedIsVisible(b, search, f, id);
    }
    if SameNote(a, b, id) {
      assert forall k :: Matches(a, f.user, id, k) <==> Matches(b, f.user, id, k);
    }
  }

  lemma SameCandidates(a: Db, b: Db, search: Search, f: ListFilter)
    requires Integrity.GrantsOk(a) && Integrity.GrantsOk(b) && SameToUser(a, b, f.user)
    ensures Candidates(a, search, f) == Candidates(b, search, f)
  {
    forall id
      ensures Selected(a, search, f, id) <==> Selected(b, search, f, id)
      ensures Selected(a, search, f, id) ==> a.notes[id] == b.notes[id]
    {
      SameSelected(a, b, search, f, id);
    }
  }

  /** Nor does any page of any list: neither its rows nor the place where it ends. */
  lemma ListsDependOnVisible(a: Db, b: Db, search: Search, f: ListFilter)
    requires Integrity.GrantsOk(a) && Integrity.GrantsOk(b) && SameToUser(a, b, f.user) && f.limit >= 1
    ensures ListOf(a, search, f) == ListOf(b, search, f)
  {
    SameCandidates(a, b, search, f);
    PageRowsExist(a, search, f);
    PageRowsExist(b, search, f);
    var page := PageFrom(Candidates(a, search, f), Start(f), f.limit);
    PageIsTopOfRemaining(Candidates(a, search, f), Start(f), f.limit);
    forall i | 0 <= i < |page.rows|
      ensures RowOf(a, search, f, page.rows[i].id) == RowOf(b, search, f, page.rows[i].id)
    {
      assert page.rows[i] in page.rows;
      var id := page.rows[i].id;
      SameSelected(a, b, search, f, id);
      SameRole(a, b, f.user, id);
      assert ReadyFiles(a, id) == ReadyFiles(b, id);
    }
    assert RowsOf(a, search, f, page.rows) == RowsOf(b, search, f, page.rows);
  }
}
