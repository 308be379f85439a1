/** Runs of the service, step by step from its empty tables, in which a walk through the list misses
    a match or receives one twice. */
module Witnesses {
  import opened Wrappers
  import opened Uuids
  import opened Schema
  import opened Access
  import opened Machine
  import opened Keyset
  import opened Listing
  import opened Walk
  import Notes
  import ETags
  import Sql
  import Text
  import Authz

  const ANN: Uuid := 1

  /** Ranks by title alone. */
  const SEARCH := Search(
    (query, title, body) => true,
    (query, title, body) => if title == "x" then 3 else if title == "y" then 2 else 1
  )

  /** One note a page. */
  function AskFor(query: string): ListFilter {
    ListFilter(ANN, query, [], None, None, false, false, 1, None)
  }

  const FIRST := Note(ANN, "x", "", [], 1, 2, 2, None)
  const SECOND := Note(ANN, "z", "", [], 1, 3, 3, None)
  const CHANGED := Note(ANN, "y", "", [], 2, 2, 4, None)

  const USERS := map[ANN := User("ann", "Ann", None)]

  const REGISTERED := Db(USERS, map[], map[], map[], map[], map[], map[], 1)
  const ONE_NOTE := Db(USERS, map[], map[], map[1 := FIRST], map[], map[], map[], 2)
  const BEFORE := Db(USERS, map[], map[], map[1 := FIRST, 2 := SECOND], map[], map[], map[], 3)
  const AFTERWARDS := Db(USERS, map[], map[], map[1 := CHANGED, 2 := SECOND], map[], map[], map[], 4)

  const SETUP := [
    Event(Register(ANN, "ann", "Ann"), {}),
    Event(Step.CreateNote(ANN, 1, "x", "", []), {}),
    Event(Step.CreateNote(ANN, 2, "z", "", []), {})
  ]

  const RENAMING := Sql.Patch(Some("y"), None, None)

  lemma PlainTitle(title: string)
    requires |title| == 1 && !Text.IsSpace(title[0]) && title[0] as int < 0x80
    ensures Text.TrimSpace(title) == title && Text.ByteLength(title) == 1
  {
    Text.TrimSettles(title, Text.IsSpace);
    assert title[..0] == "";
    assert Text.ByteLength(title[..0]) == 0;
  }

  lemma SetupReaches(cfg: Config)
    ensures Run(cfg, EMPTY, SETUP) && After(cfg, EMPTY, SETUP) == BEFORE
  {
    PlainTitle("x");
    PlainTitle("z");
    assert Next(cfg, EMPTY, SETUP[0]) == REGISTERED;
    assert Next(cfg, REGISTERED, SETUP[1]) == ONE_NOTE;
    assert Next(cfg, ONE_NOTE, SETUP[2]) == BEFORE;
    var rest := [SETUP[1], SETUP[2]];
    assert SETUP[1..] == rest && rest[1..] == [SETUP[2]] && [SETUP[2]][1..] == [];
    assert After(cfg, ONE_NOTE, [SETUP[2]]) == BEFORE && Run(cfg, ONE_NOTE, [SETUP[2]]);
    assert After(cfg, REGISTERED, rest) == BEFORE && Run(cfg, REGISTERED, rest);
  }

  lemma RetitleChecks(cfg: Config)
    ensures Load(Tick(BEFORE), ANN, 1, Authz.Action.Update) == Ok(Loaded(FIRST, Authz.ROLE_OWNER))
    ensures Notes.CheckedPatch(RENAMING, cfg.lower) == Ok(RENAMING)
    ensures Sql.UpdateNote(BEFORE.notes, 1, 1, RENAMING, 4) == Sql.Wrote(CHANGED)
  {
    PlainTitle("y");
  }

  lemma AcceptedIsWritten(cfg: Config, db: Db, id: Uuid, ifMatch: string, v: int, p: Sql.Patch, l: Loaded, n: Note)
    requires Load(Tick(db), ANN, id, Authz.Action.Update) == Ok(l) && ETags.IfMatchVersion(ifMatch) == Ok(v)
    requires p.body.None? && Notes.CheckedPatch(p, cfg.lower) == Ok(p)
    requires Sql.UpdateNote(db.notes, id, v, p, db.now + 1) == Sql.Wrote(n)
    ensures Notes.Update(cfg, db, ANN, id, ifMatch, p, {}).db == Tick(db).(notes := db.notes[id := n])
  {
  }

  lemma RetitleIsWritten(cfg: Config, ifMatch: string)
    requires ETags.IfMatchVersion(ifMatch) == Ok(1)
    ensures Notes.Update(cfg, BEFORE, ANN, 1, ifMatch, RENAMING, {}).db == AFTERWARDS
  {
    RetitleChecks(cfg);
    AcceptedIsWritten(cfg, BEFORE, 1, ifMatch, 1, RENAMING, Loaded(FIRST, Authz.ROLE_OWNER), CHANGED);
    assert BEFORE.notes[1 := CHANGED] == AFTERWARDS.notes;
  }

  lemma FirstTag() returns (tag: string)
    ensures ETags.IfMatchVersion(tag) == Ok(1)
  {
    ETags.IfMatchInvertsETag(1);
    tag := ETags.SetETag(1);
  }

  lemma UpdateEvent(cfg: Config, db: Db, caller: Uuid, note: Uuid, ifMatch: string, patch: Sql.Patch)
    ensures Next(cfg, db, Event(Step.UpdateNote(caller, note, ifMatch, patch), {}))
            == Notes.Update(cfg, db, caller, note, ifMatch, patch, {}).db
  {
  }

  lemma OneEvent(cfg: Config, db: Db, e: Event)
    requires Enabled(db, e)
    ensures Leads(cfg, db, Next(cfg, db, e))
  {
    var next := Next(cfg, db, e);
    assert [e][1..] == [];
    assert Run(cfg, next, []) && After(cfg, next, []) == next;
    assert Run(cfg, db, [e]) && After(cfg, db, [e]) == next;
  }

  lemma RetitleLeads(cfg: Config)
    ensures Leads(cfg, BEFORE, AFTERWARDS) && Leads(cfg, AFTERWARDS, AFTERWARDS)
  {
    var tag := FirstTag();
    RetitleIsWritten(cfg, tag);
    UpdateEvent(cfg, BEFORE, ANN, 1, tag, RENAMING);
    OneEvent(cfg, BEFORE, Event(Step.UpdateNote(ANN, 1, tag, RENAMING), {}));
    assert Run(cfg, AFTERWARDS, []) && After(cfg, AFTERWARDS, []) == AFTERWARDS;
  }

  /** The states are reached from the empty tables, one after the other. */
  lemma StatesAreVisited(cfg: Config)
    ensures Reachable(cfg, BEFORE) && Visits(cfg, [BEFORE, AFTERWARDS]) && Visits(cfg, [BEFORE, AFTERWARDS, AFTERWARDS])
  {
    SetupReaches(cfg);
    RetitleLeads(cfg);
    assert Reachable(cfg, BEFORE);
  }

  lemma TwoInOrder(s: set<Pos>, p: Pos, q: Pos)
    requires s == {p, q} && Below(q, p)
    ensures Descending(s) == [p, q]
  {
    DescendingLists(s);
    DescendingIsUnique(Descending(s), [p, q]);
  }

  lemma FirstOfTwo(db: Db, search: Search, f: ListFilter, p: Pos, q: Pos)
    requires f.limit == 1 && Remaining(Candidates(db, search, f), Start(f)) == {p, q} && Below(q, p)
    ensures var r := ListOf(db, search, f);
            |r.rows| == 1 && r.rows[0].id == p.id && r.next.Some? && Start(f.(cursor := r.next)) == Some(p)
  {
    TwoInOrder(Remaining(Candidates(db, search, f), Start(f)), p, q);
    RowsArePositions(db, search, f);
  }

  lemma NothingLeft(db: Db, search: Search, f: ListFilter)
    requires f.limit == 1 && Remaining(Candidates(db, search, f), Start(f)) == {}
    ensures ListOf(db, search, f) == Listed([], None)
  {
    RowsArePositions(db, search, f);
  }

  lemma BothMatch(db: Db, f: ListFilter)
    requires db == BEFORE || db == AFTERWARDS
    requires f == AskFor(f.query).(cursor := f.cursor)
    ensures Candidates(db, SEARCH, f) == {PosOf(SEARCH, f, 1, db.notes[1]), PosOf(SEARCH, f, 2, db.notes[2])}
    ensures Selected(db, SEARCH, f, 1) && Selected(db, SEARCH, f, 2)
  {
    assert Selected(db, SEARCH, f, 1) && Selected(db, SEARCH, f, 2);
    assert db.notes.Keys == {1, 2};
  }

  /** In recency order a match is missed: it is changed, and so moves up, between two pages. It
      matches in both states, and the walk ends without it. */
  lemma ChangedNoteIsMissed(cfg: Config)
    ensures var dbs, f := [BEFORE, AFTERWARDS], AskFor("");
            && Reachable(cfg, BEFORE) && Visits(cfg, dbs)
            && MatchesThroughout(dbs, SEARCH, f, 1)
            && Finishes(dbs, SEARCH, f) && !Present(Received(dbs, SEARCH, f), 1)
  {
    var dbs, f := [BEFORE, AFTERWARDS], AskFor("");
    StatesAreVisited(cfg);
    BothMatch(BEFORE, f);
    BothMatch(AFTERWARDS, f);
    FirstOfTwo(BEFORE, SEARCH, f, Pos(3, 2), Pos(2, 1));
    var r := ListOf(BEFORE, SEARCH, f);
    var f' := f.(cursor := r.next);
    BothMatch(AFTERWARDS, f');
    NothingLeft(AFTERWARDS, SEARCH, f');
    assert dbs[1..] == [AFTERWARDS];
    assert Received([AFTERWARDS], SEARCH, f') == [];
    assert Received(dbs, SEARCH, f) == r.rows + [];
  }

  lemma LastOfOne(db: Db, search: Search, f: ListFilter, p: Pos)
    requires f.limit == 1 && Remaining(Candidates(db, search, f), Start(f)) == {p}
    ensures ListOf(db, search, f).next.None?
  {
    PageIsTopOfRemaining(Candidates(db, search, f), Start(f), f.limit);
    RowsArePositions(db, search, f);
  }

  /** The three pages of the walk in relevance order: the note, the note again, and the other one. */
  lemma RelevancePages() returns (f1: ListFilter, f2: ListFilter)
    ensures var f, r := AskFor("q"), ListOf(BEFORE, SEARCH, AskFor("q"));
            r.next.Some? && |r.rows| == 1 && r.rows[0].id == 1 && f1 == f.(cursor := r.next) && f1.limit == 1
    ensures var r := ListOf(AFTERWARDS, SEARCH, f1);
            r.next.Some? && |r.rows| == 1 && r.rows[0].id == 1 && f2 == f1.(cursor := r.next) && f2.limit == 1
    ensures ListOf(AFTERWARDS, SEARCH, f2).next.None?
  {
    var f := AskFor("q");
    BothMatch(BEFORE, f);
    FirstOfTwo(BEFORE, SEARCH, f, Pos(3, 1), Pos(1, 2));
    f1 := f.(cursor := ListOf(BEFORE, SEARCH, f).next);
    BothMatch(AFTERWARDS, f1);
    FirstOfTwo(AFTERWARDS, SEARCH, f1, Pos(2, 1), Pos(1, 2));
    f2 := f1.(cursor := ListOf(AFTERWARDS, SEARCH, f1).next);
    BothMatch(AFTERWARDS, f2);
    LastOfOne(AFTERWARDS, SEARCH, f2, Pos(1, 2));
  }

  lemma TwicePresent(dbs: seq<Db>, search: Search, f: ListFilter, f1: ListFilter, f2: ListFilter, id: Uuid)
    requires |dbs| == 3 && f.limit == f1.limit == f2.limit == 1
    requires var r := ListOf(dbs[0], search, f);
             r.next.Some? && |r.rows| == 1 && r.rows[0].id == id && f1 == f.(cursor := r.next)
    requires var r := ListOf(dbs[1], search, f1);
             r.next.Some? && |r.rows| == 1 && r.rows[0].id == id && f2 == f1.(cursor := r.next)
    requires ListOf(dbs[2], search, f2).next.None?
    ensures Finishes(dbs, search, f) && OnPage(dbs, search, f, 0, id) && OnPage(dbs, search, f, 1, id)
    ensures !Once(Received(dbs, search, f), id)
  {
    var tail := dbs[1..];
    FinishesAt(tail, search, f1, id);
    FiltersBegin(dbs, search, f);
    assert OnPage(tail, search, f1, 0, id);
    LaterPages(dbs, search, f, 0, id);
    var later := Received(tail, search, f1);
    var rows := Received(dbs, search, f);
    assert rows == ListOf(dbs[0], search, f).rows + later;
    assert rows[0].id == id && rows[1] == later[0];
  }

  lemma FiltersBegin(dbs: seq<Db>, search: Search, f: ListFilter)
    requires f.limit >= 1 && dbs != []
    ensures |Filters(dbs, search, f)| > 0 && Filters(dbs, search, f)[0] == f
  {
  }

  lemma FinishesAt(dbs: seq<Db>, search: Search, f: ListFilter, id: Uuid)
    requires |dbs| == 2 && f.limit == 1
    requires var r := ListOf(dbs[0], search, f);
             r.next.Some? && |r.rows| == 1 && r.rows[0].id == id
                 && ListOf(dbs[1], search, f.(cursor := r.next)).next.None?
    ensures Finishes(dbs, search, f) && |Filters(dbs, search, f)| > 0 && Filters(dbs, search, f)[0] == f
    ensures Received(dbs, search, f) != [] && Received(dbs, search, f)[0].id == id
  {
    assert dbs[1..] == [dbs[1]];
  }

  /** In relevance order a note is received twice: its rank falls between two pages. */
  lemma FallingNoteComesTwice(cfg: Config)
    ensures var dbs, f := [BEFORE, AFTERWARDS, AFTERWARDS], AskFor("q");
            && Reachable(cfg, BEFORE) && Visits(cfg, dbs) && Finishes(dbs, SEARCH, f)
            && OnPage(dbs, SEARCH, f, 0, 1) && OnPage(dbs, SEARCH, f, 1, 1)
            && !Once(Received(dbs, SEARCH, f), 1)
  {
    StatesAreVisited(cfg);
    var f1, f2 := RelevancePages();
    TwicePresent([BEFORE, AFTERWARDS, AFTERWARDS], SEARCH, AskFor("q"), f1, f2, 1);
  }
}
