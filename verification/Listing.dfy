/** The note list (internal/store/notes_list.go): which notes a filter selects, and in what order. */
module Listing {
  import opened Wrappers
  import opened Uuids
  import opened Schema
  import opened Authz
  import opened Access
  import opened Keyset
  import opened Cursors

  datatype ListFilter = ListFilter(
    user: Uuid,
    query: string,
    tags: seq<string>,
    owner: Option<Uuid>,
    team: Option<Uuid>,
    sharedWithMe: bool,
    deleted: bool,
    limit: nat,
    cursor: Option<Cursor>
  ) {
    predicate ByRelevance() { query != "" }
  }

  /** Full-text search, seen from outside: what matches a query, and how well. */
  datatype Search = Search(matches: (string, string, string) -> bool, rank: (string, string, string) -> Rank)

  /** The conditions the query is assembled from. */
  datatype Conjunct =
    | Authorized
    | IsDeleted
    | NotDeleted
    | OwnedByCaller
    | NotOwnedByCaller
    | OwnedBy(owner: Uuid)
    | SharedWithTeam(team: Uuid)
    | Tagged(tags: seq<string>)
    | MatchesQuery(query: string)
    | BelowCursor(cursor: Cursor)

  function RankOf(search: Search, f: ListFilter, n: Note): Rank {
    if f.ByRelevance() then search.rank(f.query, n.title, n.body) else 0
  }

  function PosOf(search: Search, f: ListFilter, id: Uuid, n: Note): Pos {
    Pos(if f.ByRelevance() then RankOf(search, f, n) else n.updatedAt, id)
  }

  function CursorPos(f: ListFilter, c: Cursor): Pos {
    Pos(if f.ByRelevance() then c.rank else c.updatedAt, c.id)
  }

  function Start(f: ListFilter): Option<Pos> {
    if f.cursor.Some? then Some(CursorPos(f, f.cursor.value)) else None
  }

  predicate Holds(db: Db, search: Search, f: ListFilter, c: Conjunct, id: Uuid)
    requires id in db.notes
  {
    var n := db.notes[id];
    match c
    case Authorized => n.owner == f.user || exists k | k in db.shares :: Matches(db, f.user, id, k)
    case IsDeleted => n.deletedAt.Some?
    case NotDeleted => n.deletedAt.None?
    case OwnedByCaller => n.owner == f.user
    case NotOwnedByCaller => n.owner != f.user
    case OwnedBy(u) => n.owner == u
    case SharedWithTeam(t) => GrantKey(id, TeamPrincipal(t)) in db.shares && Membership(t, f.user) in db.members
    case Tagged(tags) => forall t | t in tags :: t in n.tags
    case MatchesQuery(q) => search.matches(q, n.title, n.body)
    case BelowCursor(cur) => Below(PosOf(search, f, id, n), CursorPos(f, cur))
  }

  /** The rows for which every condition holds, as positions. */
  function Where(db: Db, search: Search, f: ListFilter, conjuncts: seq<Conjunct>): set<Pos> {
    set id | id in db.notes && (forall c | c in conjuncts :: Holds(db, search, f, c, id)) ::
        PosOf(search, f, id, db.notes[id])
  }

  /** The notes a filter stands for, whatever the page: those the caller may read, with the deleted
      ones shown to their owner alone, and narrowed by each filter that is present. */
  ghost predicate Selected(db: Db, search: Search, f: ListFilter, id: Uuid) {
    && id in db.notes
    && var n := db.notes[id];
       && (n.owner == f.user || exists k :: Matches(db, f.user, id, k))
       && (if f.deleted then n.deletedAt.Some? && n.owner == f.user else n.deletedAt.None?)
       && (f.owner.Some? ==> n.owner == f.owner.value)
       && (f.sharedWithMe ==> n.owner != f.user)
       && (f.team.Some? ==>
             GrantKey(id, TeamPrincipal(f.team.value)) in db.shares && Membership(f.team.value, f.user) in db.members)
       && (forall t | t in f.tags :: t in n.tags)
       && (f.ByRelevance() ==> search.matches(f.query, n.title, n.body))
  }

  ghost function Candidates(db: Db, search: Search, f: ListFilter): set<Pos> {
    set id | id in db.notes && Selected(db, search, f, id) :: PosOf(search, f, id, db.notes[id])
  }

  datatype ListRow = ListRow(id: Uuid, note: Note, role: Role, attachments: nat, rank: Rank)

  function ReadyFiles(db: Db, note: Uuid): set<Uuid> {
    set a | a in db.attachments && db.attachments[a].note == note && db.attachments[a].status.Ready?
  }

  function RowOf(db: Db, search: Search, f: ListFilter, id: Uuid): ListRow
    requires id in db.notes
  {
    var n := db.notes[id];
    ListRow(id, n, EffectiveRole(db, f.user, id), |ReadyFiles(db, id)|, RankOf(search, f, n))
  }

  predicate IsRow(db: Db, search: Search, f: ListFilter, p: Pos) {
    p.id in db.notes && p == PosOf(search, f, p.id, db.notes[p.id])
  }

  function RowsOf(db: Db, search: Search, f: ListFilter, positions: seq<Pos>): (rows: seq<ListRow>)
    requires forall i | 0 <= i < |positions| :: IsRow(db, search, f, positions[i])
    ensures |rows| == |positions|
  {
    seq(|positions|, i requires 0 <= i < |positions| && IsRow(db, search, f, positions[i]) =>
      RowOf(db, search, f, positions[i].id))
  }

  function CursorAt(row: ListRow): Cursor {
    Cursor(row.note.updatedAt, row.id, row.rank)
  }

  datatype Listed = Listed(rows: seq<ListRow>, next: Option<Cursor>)

  lemma PageRowsExist(db: Db, search: Search, f: ListFilter)
    requires f.limit >= 1
    ensures var page := PageFrom(Candidates(db, search, f), Start(f), f.limit);
            forall i | 0 <= i < |page.rows| :: IsRow(db, search, f, page.rows[i])
  {
    var page := PageFrom(Candidates(db, search, f), Start(f), f.limit);
    PageIsTopOfRemaining(Candidates(db, search, f), Start(f), f.limit);
    assert forall i | 0 <= i < |page.rows| :: page.rows[i] in page.rows;
  }

  /** The reply: the page of the selected notes that the cursor and the limit cut out, and the
      position of its last row if more follow. */
  ghost function ListOf(db: Db, search: Search, f: ListFilter): (r: Listed)
    requires f.limit >= 1
  {
    var page := PageFrom(Candidates(db, search, f), Start(f), f.limit);
    PageRowsExist(db, search, f);
    var rows := RowsOf(db, search, f, page.rows);
    Listed(rows, if page.next.Some? then Some(CursorAt(rows[|rows| - 1])) else None)
  }

  /** The cursor sent is the position at which the next page starts. */
  lemma CursorIsNextStart(db: Db, search: Search, f: ListFilter)
    requires f.limit >= 1
    ensures var page := PageFrom(Candidates(db, search, f), Start(f), f.limit);
            var next := ListOf(db, search, f).next;
            Start(f.(cursor := next)) == page.next
  {
    PageRowsExist(db, search, f);
  }

  /** `order by ... desc, n.id desc`: by time of change, or by rank when there is a query. */
  predicate Precedes(search: Search, query: string, a: Note, i: Uuid, b: Note, j: Uuid) {
    if query == "" then a.updatedAt > b.updatedAt || (a.updatedAt == b.updatedAt && i > j)
    else
      var p, q := search.rank(query, a.title, a.body), search.rank(query, b.title, b.body);
      p > q || (p == q && i > j)
  }

  /** Strictly after the position of the cursor. */
  predicate PastCursor(search: Search, f: ListFilter, n: Note, id: Uuid) {
    f.cursor.Some? ==>
      var c := f.cursor.value;
      if f.query == "" then n.updatedAt < c.updatedAt || (n.updatedAt == c.updatedAt && id < c.id)
      else
        var p := search.rank(f.query, n.title, n.body);
        p < c.rank || (p == c.rank && id < c.id)
  }

  predicate IsShown(rows: seq<ListRow>, id: Uuid) {
    exists i :: 0 <= i < |rows| && rows[i].id == id
  }

  /** What a row tells besides its note. */
  ghost predicate RowSays(db: Db, search: Search, f: ListFilter, r: ListRow) {
    && r.role == RoleOn(db, f.user, r.id)
    && (exists files: set<Uuid> ::
          && r.attachments == |files|
          && forall a :: a in files <==>
               a in db.attachments && db.attachments[a].note == r.id && db.attachments[a].status == Ready)
    && r.rank == if f.query == "" then 0 else search.rank(f.query, r.note.title, r.note.body)
  }

  lemma RowOfSays(db: Db, search: Search, f: ListFilter, id: Uuid)
    requires id in db.notes
    ensures RowSays(db, search, f, RowOf(db, search, f, id))
  {
    var files := ReadyFiles(db, id);
    assert |files| == RowOf(db, search, f, id).attachments;
    assert forall a :: a in files <==>
        a in db.attachments && db.attachments[a].note == id && db.attachments[a].status == Ready;
  }

  /** What the rows of a reply are: notes as they stand, selected and past the cursor, each with the
      caller's role, the number of its ready attachments and its rank. */
  ghost predicate RowsAreSelected(db: Db, search: Search, f: ListFilter, rows: seq<ListRow>) {
    forall r | r in rows ::
      && Selected(db, search, f, r.id) && r.note == db.notes[r.id] && PastCursor(search, f, r.note, r.id)
      && RowSays(db, search, f, r)
  }

  predicate RowsInOrder(search: Search, f: ListFilter, rows: seq<ListRow>) {
    forall i, j | 0 <= i < j < |rows| ::
      Precedes(search, f.query, rows[i].note, rows[i].id, rows[j].note, rows[j].id)
  }

  /** Whatever else is selected past the cursor comes after every row. */
  ghost predicate RestComesAfter(db: Db, search: Search, f: ListFilter, rows: seq<ListRow>) {
    forall id | Selected(db, search, f, id) && PastCursor(search, f, db.notes[id], id) && !IsShown(rows, id) ::
      forall r | r in rows :: Precedes(search, f.query, r.note, r.id, db.notes[id], id)
  }

  /** The cursor sent names the last row, and is sent exactly when something is left; a page is full then. */
  ghost predicate CursorEndsPage(db: Db, search: Search, f: ListFilter, rows: seq<ListRow>, next: Option<Cursor>) {
    && |rows| <= f.limit
    && (next.Some? <==> exists id ::
          Selected(db, search, f, id) && PastCursor(search, f, db.notes[id], id) && !IsShown(rows, id))
    && (next.Some? ==>
          && |rows| == f.limit && rows != []
          && var last := rows[|rows| - 1]; next.value == Cursor(last.note.updatedAt, last.id, last.rank))
  }

  lemma PastCursorIsBelowStart(search: Search, f: ListFilter, n: Note, id: Uuid)
    ensures PastCursor(search, f, n, id) <==> (Start(f).Some? ==> Below(PosOf(search, f, id, n), Start(f).value))
  {
  }

  lemma RowsAreFound(db: Db, search: Search, f: ListFilter)
    requires f.limit >= 1
    ensures RowsAreSelected(db, search, f, ListOf(db, search, f).rows)
  {
    var rows := ListOf(db, search, f).rows;
    var page := PageFrom(Candidates(db, search, f), Start(f), f.limit);
    PageIsTopOfRemaining(Candidates(db, search, f), Start(f), f.limit);
    PageRowsExist(db, search, f);
    forall r | r in rows
      ensures Selected(db, search, f, r.id) && r.note == db.notes[r.id] && PastCursor(search, f, r.note, r.id)
      ensures RowSays(db, search, f, r)
    {
      var i :| 0 <= i < |rows| && rows[i] == r;
      assert page.rows[i] in page.rows && page.rows[i] in Remaining(Candidates(db, search, f), Start(f));
      PastCursorIsBelowStart(search, f, r.note, r.id);
      RowOfSays(db, search, f, r.id);
    }
  }

  lemma RowsAreInOrder(db: Db, search: Search, f: ListFilter)
    requires f.limit >= 1
    ensures RowsInOrder(search, f, ListOf(db, search, f).rows)
  {
    var rows := ListOf(db, search, f).rows;
    var page := PageFrom(Candidates(db, search, f), Start(f), f.limit);
    PageIsTopOfRemaining(Candidates(db, search, f), Start(f), f.limit);
    PageRowsExist(db, search, f);
    DescentIs(page.rows);
    forall i, j | 0 <= i < j < |rows|
      ensures Precedes(search, f.query, rows[i].note, rows[i].id, rows[j].note, rows[j].id)
    {
      assert IsRow(db, search, f, page.rows[i]) && IsRow(db, search, f, page.rows[j]);
    }
  }

  lemma RowIsOnPage(db: Db, search: Search, f: ListFilter, id: Uuid)
    requires f.limit >= 1 && Selected(db, search, f, id)
    ensures IsShown(ListOf(db, search, f).rows, id) <==>
            PosOf(search, f, id, db.notes[id]) in PageFrom(Candidates(db, search, f), Start(f), f.limit).rows
  {
    var rows := ListOf(db, search, f).rows;
    var page := PageFrom(Candidates(db, search, f), Start(f), f.limit);
    PageRowsExist(db, search, f);
    if i :| 0 <= i < |rows| && rows[i].id == id {
      assert IsRow(db, search, f, page.rows[i]) && page.rows[i] in page.rows;
    }
    var p := PosOf(search, f, id, db.notes[id]);
    if p in page.rows {
      var i :| 0 <= i < |page.rows| && page.rows[i] == p;
      assert rows[i].id == id;
    }
  }

  lemma WaitingIsLeft(db: Db, search: Search, f: ListFilter, id: Uuid)
    requires f.limit >= 1 && Selected(db, search, f, id) && PastCursor(search, f, db.notes[id], id)
    requires !IsShown(ListOf(db, search, f).rows, id)
    ensures var s := Candidates(db, search, f);
            var page := PageFrom(s, Start(f), f.limit);
            page.next.Some? && PosOf(search, f, id, db.notes[id]) in Remaining(s, page.next)
  {
    var s, p := Candidates(db, search, f), PosOf(search, f, id, db.notes[id]);
    PastCursorIsBelowStart(search, f, db.notes[id], id);
    RowIsOnPage(db, search, f, id);
    PageIsTopOfRemaining(s, Start(f), f.limit);
    assert p in s && p in Remaining(s, Start(f));
  }

  lemma RestIsAfter(db: Db, search: Search, f: ListFilter)
    requires f.limit >= 1
    ensures RestComesAfter(db, search, f, ListOf(db, search, f).rows)
  {
    var s, rows := Candidates(db, search, f), ListOf(db, search, f).rows;
    var page := PageFrom(s, Start(f), f.limit);
    PageIsTopOfRemaining(s, Start(f), f.limit);
    PageRowsExist(db, search, f);
    forall id, r | Selected(db, search, f, id) && PastCursor(search, f, db.notes[id], id) && !IsShown(rows, id)
                   && r in rows
      ensures Precedes(search, f.query, r.note, r.id, db.notes[id], id)
    {
      WaitingIsLeft(db, search, f, id);
      var i :| 0 <= i < |rows| && rows[i] == r;
      RowPrecedes(page.rows, i, PosOf(search, f, id, db.notes[id]));
      assert IsRow(db, search, f, page.rows[i]);
    }
  }

  /** A position below the last of a descending list comes after each of them. */
  lemma RowPrecedes(l: seq<Pos>, i: nat, p: Pos)
    requires i < |l| && StrictlyDescends(l) && Below(p, l[|l| - 1])
    ensures l[i].major > p.major || (l[i].major == p.major && l[i].id > p.id)
  {
    DescentIs(l);
    DescentIs([l[|l| - 1], p]);
    assert [l[|l| - 1], p][0] == l[|l| - 1] && [l[|l| - 1], p][1] == p;
  }

  lemma CursorIsAtEnd(db: Db, search: Search, f: ListFilter)
    requires f.limit >= 1
    ensures CursorEndsPage(db, search, f, ListOf(db, search, f).rows, ListOf(db, search, f).next)
  {
    var s, r := Candidates(db, search, f), ListOf(db, search, f);
    var page := PageFrom(s, Start(f), f.limit);
    PageIsTopOfRemaining(s, Start(f), f.limit);
    if r.next.Some? {
      var p :| p in Remaining(s, page.next);
      assert p in Remaining(s, Start(f)) && p !in page.rows;
      PastCursorIsBelowStart(search, f, db.notes[p.id], p.id);
      RowIsOnPage(db, search, f, p.id);
    }
    if id :| Selected(db, search, f, id) && PastCursor(search, f, db.notes[id], id) && !IsShown(r.rows, id) {
      WaitingIsLeft(db, search, f, id);
    }
  }

  /** The conditions for the filters that are present. */
  ghost predicate Assembled(f: ListFilter, where: seq<Conjunct>) {
    && (forall c :: c in where <==>
          || c == Authorized
          || (f.deleted && (c == IsDeleted || c == OwnedByCaller))
          || (!f.deleted && c == NotDeleted)
          || (f.owner.Some? && c == OwnedBy(f.owner.value))
          || (f.sharedWithMe && c == NotOwnedByCaller)
          || (f.team.Some? && c == SharedWithTeam(f.team.value))
          || (|f.tags| > 0 && c == Tagged(f.tags))
          || (f.ByRelevance() && c == MatchesQuery(f.query))
          || (f.cursor.Some? && c == BelowCursor(f.cursor.value)))
  }

  /** The conditions are added one by one. */
  method Assemble(f: ListFilter) returns (where: seq<Conjunct>)
    ensures Assembled(f, where)
  {
    where := [Authorized];
    if f.deleted {
      where := where + [IsDeleted];
      where := where + [OwnedByCaller];
    } else {
      where := where + [NotDeleted];
    }
    if f.owner.Some? {
      where := where + [OwnedBy(f.owner.value)];
    }
    if f.sharedWithMe {
      where := where + [NotOwnedByCaller];
    }
    if f.team.Some? {
      where := where + [SharedWithTeam(f.team.value)];
    }
    if |f.tags| > 0 {
      where := where + [Tagged(f.tags)];
    }
    if f.ByRelevance() {
      where := where + [MatchesQuery(f.query)];
    }
    if f.cursor.Some? {
      where := where + [BelowCursor(f.cursor.value)];
    }
  }

  /** `ListNotes` reads the tables and changes nothing. */
  method ListNotes(db: Db, search: Search, f: ListFilter) returns (out: seq<ListRow>, next: Option<Cursor>)
    requires f.limit >= 1
    ensures Listed(out, next) == ListOf(db, search, f)
    ensures RowsAreSelected(db, search, f, out) && RowsInOrder(search, f, out)
    ensures RestComesAfter(db, search, f, out) && CursorEndsPage(db, search, f, out, next)
  {
    out, next := RunQuery(db, search, f);
    RowsAreFound(db, search, f);
    RowsAreInOrder(db, search, f);
    RestIsAfter(db, search, f);
    CursorIsAtEnd(db, search, f);
  }

  /** The query, with one row more than is asked for, and the cut. */
  method RunQuery(db: Db, search: Search, f: ListFilter) returns (out: seq<ListRow>, next: Option<Cursor>)
    requires f.limit >= 1
    ensures Listed(out, next) == ListOf(db, search, f)
  {
    var where := Assemble(f);
    var l := Descending(Where(db, search, f, where));
    QueryIsPage(db, search, f, where);
    var probed := if |l| > f.limit + 1 then l[..f.limit + 1] else l;
    out := Scan(db, search, f, probed);
    next := None;
    if |out| > f.limit {
      assert probed[..f.limit] == l[..f.limit];
      RowsOfPrefix(db, search, f, probed, f.limit);
      out := out[..f.limit];
      next := Some(CursorAt(out[|out| - 1]));
    }
  }

  lemma RowsOfPrefix(db: Db, search: Search, f: ListFilter, positions: seq<Pos>, n: nat)
    requires n <= |positions| && forall i | 0 <= i < |positions| :: IsRow(db, search, f, positions[i])
    ensures (forall i | 0 <= i < n :: IsRow(db, search, f, positions[..n][i]))
         && RowsOf(db, search, f, positions)[..n] == RowsOf(db, search, f, positions[..n])
  {
  }

  /** The ordered result of the query, cut at the limit, is the page. */
  lemma QueryIsPage(db: Db, search: Search, f: ListFilter, where: seq<Conjunct>)
    requires f.limit >= 1 && Assembled(f, where)
    ensures var l := Descending(Where(db, search, f, where));
            && (forall i | 0 <= i < |l| :: IsRow(db, search, f, l[i]))
            && var rows := RowsOf(db, search, f, if |l| > f.limit then l[..f.limit] else l);
               ListOf(db, search, f) == Listed(rows, if |l| > f.limit then Some(CursorAt(rows[f.limit - 1])) else None)
  {
    var l := Descending(Where(db, search, f, where));
    RowsAreNotes(db, search, f, where);
    ConjunctsSelect(db, search, f, where);
    assert PageFrom(Candidates(db, search, f), Start(f), f.limit)
        == if |l| > f.limit then Page(l[..f.limit], Some(l[f.limit - 1])) else Page(l, None);
  }

  lemma RowsAreNotes(db: Db, search: Search, f: ListFilter, where: seq<Conjunct>)
    ensures var l := Descending(Where(db, search, f, where));
            forall i | 0 <= i < |l| :: IsRow(db, search, f, l[i])
  {
    var l := Descending(Where(db, search, f, where));
    DescendingLists(Where(db, search, f, where));
    forall i | 0 <= i < |l|
      ensures IsRow(db, search, f, l[i])
    {
      assert l[i] in l;
    }
  }

  /** The loop over the rows of the result. */
  method Scan(db: Db, search: Search, f: ListFilter, positions: seq<Pos>) returns (out: seq<ListRow>)
    requires forall i | 0 <= i < |positions| :: IsRow(db, search, f, positions[i])
    ensures out == RowsOf(db, search, f, positions)
  {
    out := [];
    for i := 0 to |positions|
      invariant |out| == i
      invariant forall j | 0 <= j < i :: out[j] == RowOf(db, search, f, positions[j].id)
    {
      out := out + [RowOf(db, search, f, positions[i].id)];
    }
  }

  predicate BelowCursorOf(search: Search, f: ListFilter, id: Uuid, n: Note) {
    f.cursor.Some? ==> Below(PosOf(search, f, id, n), CursorPos(f, f.cursor.value))
  }

  lemma EveryConditionIsThere(f: ListFilter, where: seq<Conjunct>)
    requires Assembled(f, where)
    ensures Authorized in where
    ensures if f.deleted then IsDeleted in where && OwnedByCaller in where else NotDeleted in where
    ensures f.owner.Some? ==> OwnedBy(f.owner.value) in where
    ensures f.sharedWithMe ==> NotOwnedByCaller in where
    ensures f.team.Some? ==> SharedWithTeam(f.team.value) in where
    ensures |f.tags| > 0 ==> Tagged(f.tags) in where
    ensures f.ByRelevance() ==> MatchesQuery(f.query) in where
    ensures f.cursor.Some? ==> BelowCursor(f.cursor.value) in where
  {
  }

  lemma ConjunctsImplySelected(db: Db, search: Search, f: ListFilter, where: seq<Conjunct>, id: Uuid)
    requires Assembled(f, where) && id in db.notes
    requires forall c | c in where :: Holds(db, search, f, c, id)
    ensures Selected(db, search, f, id) && BelowCursorOf(search, f, id, db.notes[id])
  {
    EveryConditionIsThere(f, where);
  }

  lemma SelectedImpliesConjuncts(db: Db, search: Search, f: ListFilter, where: seq<Conjunct>, id: Uuid)
    requires Assembled(f, where) && id in db.notes
    requires Selected(db, search, f, id) && BelowCursorOf(search, f, id, db.notes[id])
    ensures forall c | c in where :: Holds(db, search, f, c, id)
  {
  }

  lemma ConjunctsMeanSelected(db: Db, search: Search, f: ListFilter, where: seq<Conjunct>, id: Uuid)
    requires Assembled(f, where) && id in db.notes
    ensures (forall c | c in where :: Holds(db, search, f, c, id)) <==>
            Selected(db, search, f, id) && BelowCursorOf(search, f, id, db.notes[id])
  {
    if forall c | c in where :: Holds(db, search, f, c, id) {
      ConjunctsImplySelected(db, search, f, where, id);
    } else if Selected(db, search, f, id) && BelowCursorOf(search, f, id, db.notes[id]) {
      SelectedImpliesConjuncts(db, search, f, where, id);
    }
  }

  lemma ConjunctsSelect(db: Db, search: Search, f: ListFilter, where: seq<Conjunct>)
    requires Assembled(f, where)
    ensures Where(db, search, f, where) == Remaining(Candidates(db, search, f), Start(f))
  {
    forall id | id in db.notes
      ensures (forall c | c in where :: Holds(db, search, f, c, id)) <==>
              Selected(db, search, f, id) && BelowCursorOf(search, f, id, db.notes[id])
    {
      ConjunctsMeanSelected(db, search, f, where, id);
    }
  }
}
