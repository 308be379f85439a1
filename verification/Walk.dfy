/** Walking the list page by page while other requests change the notes in between. */
module Walk {
  import opened Wrappers
  import opened Uuids
  import opened Schema
  import opened Machine
  import opened Effects
  import opened Integrity
  import opened Listing
  import opened Keyset

  /** Whatever changed between two states carries a time later than the first. */
  ghost predicate Evolves(a: Db, b: Db) {
    && a.now <= b.now
    && (forall id | id in a.notes :: id in b.notes)
    && (forall id | id in b.notes ::
          (id in a.notes && b.notes[id].updatedAt == a.notes[id].updatedAt) || b.notes[id].updatedAt > a.now)
  }

  lemma EffectEvolves(cfg: Config, d: Db, actor: Option<Uuid>, eff: Effect)
    requires Allowed(cfg, d, actor, eff)
    ensures var next := Apply(d, eff);
            && next.now == d.now
            && (forall id | id in d.notes :: id in next.notes)
            && (forall id | id in next.notes ::
                  (id in d.notes && next.notes[id].updatedAt == d.notes[id].updatedAt)
                      || next.notes[id].updatedAt == d.now)
  {
    if eff.Swept? {
      SweepChangesFilesOnly(d, eff.rows, 0, eff.faults);
    }
  }

  lemma EventEvolves(cfg: Config, db: Db, e: Event)
    requires Enabled(db, e)
    ensures Evolves(db, Next(cfg, db, e))
  {
    var eff := EventHasEffect(cfg, db, e);
    EffectEvolves(cfg, Tick(db), Actor(e), eff);
  }

  lemma EvolvesChains(a: Db, b: Db, c: Db)
    requires Evolves(a, b) && Evolves(b, c)
    ensures Evolves(a, c)
  {
  }

  /** Any run of any handlers, by anyone. */
  lemma {:induction false} RunEvolves(cfg: Config, db: Db, events: seq<Event>)
    requires Run(cfg, db, events)
    ensures Evolves(db, After(cfg, db, events))
    decreases |events|
  {
    if events != [] {
      var next := Next(cfg, db, events[0]);
      EventEvolves(cfg, db, events[0]);
      RunEvolves(cfg, next, events[1..]);
      EvolvesChains(db, next, After(cfg, db, events));
    }
  }

  lemma {:induction false} RunKeepsNotesOk(cfg: Config, db: Db, events: seq<Event>)
    requires NotesOk(db) && Run(cfg, db, events)
    ensures NotesOk(After(cfg, db, events))
    decreases |events|
  {
    if events != [] {
      var eff := EventHasEffect(cfg, db, events[0]);
      NotesStayOk(cfg, Tick(db), Actor(events[0]), eff);
      RunKeepsNotesOk(cfg, Next(cfg, db, events[0]), events[1..]);
    }
  }

  /** The states in which a client fetches its pages, each reached from the one before by some run. */
  ghost predicate Visits(cfg: Config, dbs: seq<Db>) {
    && (dbs != [] ==> NotesOk(dbs[0]))
    && (forall i | 0 < i < |dbs| :: Leads(cfg, dbs[i - 1], dbs[i]))
  }

  ghost predicate Leads(cfg: Config, a: Db, b: Db) {
    exists events :: Run(cfg, a, events) && After(cfg, a, events) == b
  }

  lemma LeadsEvolves(cfg: Config, a: Db, b: Db)
    requires NotesOk(a) && Leads(cfg, a, b)
    ensures NotesOk(b) && Evolves(a, b)
  {
    var events :| Run(cfg, a, events) && After(cfg, a, events) == b;
    RunEvolves(cfg, a, events);
    RunKeepsNotesOk(cfg, a, events);
  }

  lemma {:induction false} VisitedIsOk(cfg: Config, dbs: seq<Db>, i: nat)
    requires Visits(cfg, dbs) && i < |dbs|
    ensures NotesOk(dbs[i])
    decreases i
  {
    if i > 0 {
      VisitedIsOk(cfg, dbs, i - 1);
      LeadsEvolves(cfg, dbs[i - 1], dbs[i]);
    }
  }

  lemma VisitsEvolve(cfg: Config, dbs: seq<Db>)
    requires Visits(cfg, dbs)
    ensures Steady(dbs)
  {
    forall i | 0 <= i < |dbs|
      ensures NotesOk(dbs[i])
    {
      VisitedIsOk(cfg, dbs, i);
    }
    forall i | 0 < i < |dbs|
      ensures Evolves(dbs[i - 1], dbs[i])
    {
      VisitedIsOk(cfg, dbs, i - 1);
      LeadsEvolves(cfg, dbs[i - 1], dbs[i]);
    }
  }

  /** What the walk rests on. */
  ghost predicate Steady(dbs: seq<Db>) {
    && (forall i | 0 <= i < |dbs| :: NotesOk(dbs[i]))
    && (forall i | 0 < i < |dbs| :: Evolves(dbs[i - 1], dbs[i]))
  }

  lemma SteadyTail(dbs: seq<Db>)
    requires Steady(dbs) && |dbs| > 1
    ensures Steady(dbs[1..]) && Evolves(dbs[0], dbs[1])
  {
    forall i | 0 < i < |dbs[1..]|
      ensures Evolves(dbs[1..][i - 1], dbs[1..][i])
    {
      assert dbs[1..][i - 1] == dbs[i] && dbs[1..][i] == dbs[i + 1];
      assert Evolves(dbs[i + 1 - 1], dbs[i + 1]);
    }
  }

  /** The replies a client gets by following `next_cursor`: one per state, until none is sent. */
  ghost function Replies(dbs: seq<Db>, search: Search, f: ListFilter): seq<Listed>
    requires f.limit >= 1
    decreases |dbs|
  {
    if dbs == [] then []
    else
      var reply := ListOf(dbs[0], search, f);
      if reply.next.None? then [reply]
      else [reply] + Replies(dbs[1..], search, f.(cursor := reply.next))
  }

  /** All rows received, in order. */
  ghost function Received(dbs: seq<Db>, search: Search, f: ListFilter): seq<ListRow>
    requires f.limit >= 1
    decreases |dbs|
  {
    if dbs == [] then []
    else
      var reply := ListOf(dbs[0], search, f);
      reply.rows + if reply.next.None? then [] else Received(dbs[1..], search, f.(cursor := reply.next))
  }

  /** The walk has come to its end. */
  ghost predicate Finishes(dbs: seq<Db>, search: Search, f: ListFilter)
    requires f.limit >= 1
    decreases |dbs|
  {
    dbs != [] &&
    var reply := ListOf(dbs[0], search, f);
    reply.next.None? || Finishes(dbs[1..], search, f.(cursor := reply.next))
  }

  /** Where a row stood in the order when it was received. */
  function PlaceOf(search: Search, f: ListFilter, r: ListRow): Pos {
    PosOf(search, f, r.id, r.note)
  }

  predicate BelowStart(f: ListFilter, p: Pos) {
    Start(f).Some? ==> Below(p, Start(f).value)
  }

  predicate OnReply(db: Db, search: Search, f: ListFilter, r: Listed, i: nat) {
    && i < |r.rows| && r.rows[i].id in db.notes && r.rows[i].note == db.notes[r.rows[i].id]
    && BelowStart(f, PlaceOf(search, f, r.rows[i]))
  }

  lemma RowsArePositions(db: Db, search: Search, f: ListFilter)
    requires f.limit >= 1
    ensures var r, page := ListOf(db, search, f), PageFrom(Candidates(db, search, f), Start(f), f.limit);
            && |r.rows| == |page.rows|
            && (forall i | 0 <= i < |r.rows| :: page.rows[i] == PlaceOf(search, f, r.rows[i]))
            && (forall i | 0 <= i < |r.rows| ::
                  OnReply(db, search, f, r, i) && Selected(db, search, f, r.rows[i].id)
                      && r.rows[i].rank == RankOf(search, f, r.rows[i].note))
            && (r.next.Some? <==> page.next.Some?) && Start(f.(cursor := r.next)) == page.next
  {
    var s := Candidates(db, search, f);
    var page := PageFrom(s, Start(f), f.limit);
    PageIsTopOfRemaining(s, Start(f), f.limit);
    PageRowsExist(db, search, f);
    CursorIsNextStart(db, search, f);
    var r := ListOf(db, search, f);
    assert r.rows == RowsOf(db, search, f, page.rows);
    forall i | 0 <= i < |r.rows|
      ensures page.rows[i] == PlaceOf(search, f, r.rows[i])
      ensures OnReply(db, search, f, r, i) && Selected(db, search, f, r.rows[i].id)
    {
      assert page.rows[i] in page.rows;
      assert page.rows[i] in Remaining(s, Start(f));
    }
  }

  /** One reply, in either order: rows below the start, descending; and below the cursor sent is
      exactly what was selected below the start and is not among the rows. */
  lemma ReplyIs(db: Db, search: Search, f: ListFilter)
    requires f.limit >= 1
    ensures var r := ListOf(db, search, f);
            && (forall i | 0 <= i < |r.rows| :: OnReply(db, search, f, r, i) && Selected(db, search, f, r.rows[i].id))
            && (forall i, j | 0 <= i < j < |r.rows| ::
                Below(PlaceOf(search, f, r.rows[j]), PlaceOf(search, f, r.rows[i])))
            && (r.next.Some? ==>
                  && |r.rows| == f.limit && r.next.value == CursorAt(r.rows[|r.rows| - 1])
                  && Start(f.(cursor := r.next)) == Some(PlaceOf(search, f, r.rows[|r.rows| - 1])))
            && (forall id | Selected(db, search, f, id) && BelowStart(f, PosOf(search, f, id, db.notes[id])) ::
                  || (exists i :: 0 <= i < |r.rows| && r.rows[i].id == id)
                  || (r.next.Some? && BelowStart(f.(cursor := r.next), PosOf(search, f, id, db.notes[id]))))
  {
    var s := Candidates(db, search, f);
    var page := PageFrom(s, Start(f), f.limit);
    PageIsTopOfRemaining(s, Start(f), f.limit);
    RowsArePositions(db, search, f);
    var r := ListOf(db, search, f);
    forall id | Selected(db, search, f, id) && BelowStart(f, PosOf(search, f, id, db.notes[id]))
      ensures (exists i :: 0 <= i < |r.rows| && r.rows[i].id == id)
           || (r.next.Some? && BelowStart(f.(cursor := r.next), PosOf(search, f, id, db.notes[id])))
    {
      var p := PosOf(search, f, id, db.notes[id]);
      assert p in s && p in Remaining(s, Start(f));
      if p in page.rows {
        var i :| 0 <= i < |page.rows| && page.rows[i] == p;
        assert r.rows[i].id == id;
      } else {
        assert p in Remaining(s, page.next);
      }
    }
  }

  /** No row of a reply lies below the cursor sent with it. */
  lemma RowsAreNotBelowNext(db: Db, search: Search, f: ListFilter, i: nat)
    requires f.limit >= 1 && ListOf(db, search, f).next.Some? && i < |ListOf(db, search, f).rows|
    ensures var r := ListOf(db, search, f);
            !BelowStart(f.(cursor := r.next), PlaceOf(search, f, r.rows[i]))
  {
    ReplyIs(db, search, f);
    var r := ListOf(db, search, f);
    assert i < |r.rows| - 1 ==> Below(PlaceOf(search, f, r.rows[|r.rows| - 1]), PlaceOf(search, f, r.rows[i]));
  }

  /** The note is a row of the reply exactly when it is selected, lies below the start, and fewer
      than a page of selected notes lie between. */
  ghost predicate Due(db: Db, search: Search, f: ListFilter, id: Uuid) {
    && Selected(db, search, f, id)
    && var p := PosOf(search, f, id, db.notes[id]);
       BelowStart(f, p) && |set q | q in Remaining(Candidates(db, search, f), Start(f)) && Below(p, q)| < f.limit
  }

  lemma OnReplyWhenDue(db: Db, search: Search, f: ListFilter, id: Uuid)
    requires f.limit >= 1
    ensures (exists i :: 0 <= i < |ListOf(db, search, f).rows| && ListOf(db, search, f).rows[i].id == id) <==>
            Due(db, search, f, id)
  {
    var r, s := ListOf(db, search, f), Candidates(db, search, f);
    var page := PageFrom(s, Start(f), f.limit);
    RowsArePositions(db, search, f);
    if i :| 0 <= i < |r.rows| && r.rows[i].id == id {
      assert page.rows[i] in page.rows;
      OnPageWhen(s, Start(f), f.limit, page.rows[i]);
    }
    if Due(db, search, f, id) {
      var p := PosOf(search, f, id, db.notes[id]);
      assert p in s && p in Remaining(s, Start(f));
      OnPageWhen(s, Start(f), f.limit, p);
      var i :| 0 <= i < |page.rows| && page.rows[i] == p;
      assert r.rows[i].id == id;
    }
  }

  predicate RowsDescend(search: Search, f: ListFilter, rows: seq<ListRow>) {
    forall i, j | 0 <= i < j < |rows| :: Below(PlaceOf(search, f, rows[j]), PlaceOf(search, f, rows[i]))
  }

  predicate AllBelowStart(search: Search, f: ListFilter, rows: seq<ListRow>) {
    forall i | 0 <= i < |rows| :: BelowStart(f, PlaceOf(search, f, rows[i]))
  }

  lemma DescendOn(search: Search, f: ListFilter, rows: seq<ListRow>, later: seq<ListRow>)
    requires RowsDescend(search, f, rows) && RowsDescend(search, f, later) && rows != []
    requires Start(f) == Some(PlaceOf(search, f, rows[|rows| - 1])) && AllBelowStart(search, f, later)
    ensures RowsDescend(search, f, rows + later)
  {
    var last := PlaceOf(search, f, rows[|rows| - 1]);
    var all := rows + later;
    forall i, j | 0 <= i < j < |all|
      ensures Below(PlaceOf(search, f, all[j]), PlaceOf(search, f, all[i]))
    {
      if i < |rows| <= j {
        assert BelowStart(f, PlaceOf(search, f, later[j - |rows|]));
        assert Below(PlaceOf(search, f, all[j]), last);
      }
    }
  }

  /** Below one cursor lies less than below an earlier one. */
  lemma BelowCarriesOver(search: Search, f: ListFilter, g: ListFilter, rows: seq<ListRow>)
    requires g == f.(cursor := g.cursor) && Start(g).Some? && BelowStart(f, Start(g).value)
    requires AllBelowStart(search, g, rows)
    ensures AllBelowStart(search, f, rows)
  {
    forall i | 0 <= i < |rows|
      ensures BelowStart(f, PlaceOf(search, f, rows[i]))
    {
      assert BelowStart(g, PlaceOf(search, g, rows[i]));
    }
  }

  /** What is received after a cursor lies below it, and the whole of it descends strictly: no
      pair of id and time, or of id and rank, comes twice, whatever happens between the pages. */
  lemma {:induction false} ReceivedDescends(dbs: seq<Db>, search: Search, f: ListFilter)
    requires f.limit >= 1
    ensures RowsDescend(search, f, Received(dbs, search, f)) && AllBelowStart(search, f, Received(dbs, search, f))
    decreases |dbs|
  {
    if dbs != [] {
      var r := ListOf(dbs[0], search, f);
      ReplyIs(dbs[0], search, f);
      if r.next.Some? {
        var f' := f.(cursor := r.next);
        ReceivedDescends(dbs[1..], search, f');
        var later := Received(dbs[1..], search, f');
        assert RowsDescend(search, f', r.rows);
        DescendOn(search, f', r.rows, later);
        BelowCarriesOver(search, f, f', later);
        assert Received(dbs, search, f) == r.rows + later;
        assert forall i | 0 <= i < |later| :: BelowStart(f, PlaceOf(search, f, later[i]));
        SameDescent(search, f, f', r.rows + later);
      }
    }
  }

  lemma SameDescent(search: Search, f: ListFilter, g: ListFilter, rows: seq<ListRow>)
    requires g == f.(cursor := g.cursor) && RowsDescend(search, g, rows)
    ensures RowsDescend(search, f, rows)
  {
    forall i, j | 0 <= i < j < |rows|
      ensures Below(PlaceOf(search, f, rows[j]), PlaceOf(search, f, rows[i]))
    {
      assert Below(PlaceOf(search, g, rows[j]), PlaceOf(search, g, rows[i]));
    }
  }

  predicate Absent(rows: seq<ListRow>, id: Uuid) {
    forall i | 0 <= i < |rows| :: rows[i].id != id
  }

  /** The note has been passed, or was not there when the cursor was sent. */
  ghost predicate Passed(db: Db, f: ListFilter, id: Uuid) {
    if id in db.notes then !BelowStart(f, Pos(db.notes[id].updatedAt, id))
    else f.cursor.Some? && f.cursor.value.updatedAt <= db.now
  }

  /** A note that is passed is not on the page, and is passed at the next one: it can only move up. */
  lemma PassedStaysPassed(db: Db, search: Search, f: ListFilter, id: Uuid)
    requires f.limit >= 1 && !f.ByRelevance() && NotesOk(db) && Passed(db, f, id)
    ensures Absent(ListOf(db, search, f).rows, id)
    ensures ListOf(db, search, f).next.Some? ==>
              forall b | Evolves(db, b) :: Passed(b, f.(cursor := ListOf(db, search, f).next), id)
  {
    var r := ListOf(db, search, f);
    ReplyIs(db, search, f);
    assert forall i | 0 <= i < |r.rows| :: OnReply(db, search, f, r, i);
    if r.next.Some? {
      var f' := f.(cursor := r.next);
      var last := r.rows[f.limit - 1];
      assert BelowStart(f, PlaceOf(search, f, last)) && last.note == db.notes[last.id];
      forall b | Evolves(db, b)
        ensures Passed(b, f', id)
      {
      }
    }
  }

  lemma {:induction false} PassedOverStaysAway(dbs: seq<Db>, search: Search, f: ListFilter, id: Uuid)
    requires f.limit >= 1 && !f.ByRelevance() && Steady(dbs)
    requires dbs != [] ==> Passed(dbs[0], f, id)
    ensures Absent(Received(dbs, search, f), id)
    decreases |dbs|
  {
    if dbs != [] {
      var r := ListOf(dbs[0], search, f);
      PassedStaysPassed(dbs[0], search, f, id);
      if r.next.Some? {
        if |dbs| > 1 {
          SteadyTail(dbs);
        }
        PassedOverStaysAway(dbs[1..], search, f.(cursor := r.next), id);
      }
    }
  }

  /** Once its page is behind, a note does not come again. */
  lemma ReceivedStaysAway(dbs: seq<Db>, search: Search, f: ListFilter, i: nat)
    requires f.limit >= 1 && !f.ByRelevance() && Steady(dbs) && dbs != []
    requires ListOf(dbs[0], search, f).next.Some? && i < |ListOf(dbs[0], search, f).rows|
    ensures var r := ListOf(dbs[0], search, f);
            Absent(Received(dbs[1..], search, f.(cursor := r.next)), r.rows[i].id)
  {
    var r := ListOf(dbs[0], search, f);
    var f' := f.(cursor := r.next);
    ReplyIs(dbs[0], search, f);
    assert !BelowStart(f', PlaceOf(search, f, r.rows[i]));
    if |dbs| > 1 {
      SteadyTail(dbs);
      PassedOverStaysAway(dbs[1..], search, f', r.rows[i].id);
    }
  }

  /** No note is received twice, whatever anyone does between the pages. */
  lemma {:induction false} NoNoteTwice(dbs: seq<Db>, search: Search, f: ListFilter)
    requires f.limit >= 1 && !f.ByRelevance() && Steady(dbs)
    ensures NoneTwice(Received(dbs, search, f))
    decreases |dbs|
  {
    if dbs != [] {
      var r := ListOf(dbs[0], search, f);
      ReplyHasNoNoteTwice(dbs[0], search, f);
      if r.next.Some? {
        var later := Received(dbs[1..], search, f.(cursor := r.next));
        forall i | 0 <= i < |r.rows|
          ensures Absent(later, r.rows[i].id)
        {
          ReceivedStaysAway(dbs, search, f, i);
        }
        if |dbs| > 1 {
          SteadyTail(dbs);
        }
        NoNoteTwice(dbs[1..], search, f.(cursor := r.next));
        DistinctOn(r.rows, later);
        assert Received(dbs, search, f) == r.rows + later;
      }
    }
  }

  predicate NoneTwice(rows: seq<ListRow>) {
    forall i, j | 0 <= i < j < |rows| :: rows[i].id != rows[j].id
  }

  lemma DistinctOn(rows: seq<ListRow>, later: seq<ListRow>)
    requires NoneTwice(rows) && NoneTwice(later)
    requires forall i | 0 <= i < |rows| :: Absent(later, rows[i].id)
    ensures NoneTwice(rows + later)
  {
    var all := rows + later;
    forall i, j | 0 <= i < j < |all|
      ensures all[i].id != all[j].id
    {
      if i < |rows| <= j {
        assert Absent(later, rows[i].id);
        assert all[j] == later[j - |rows|];
      }
    }
  }

  lemma ReplyHasNoNoteTwice(db: Db, search: Search, f: ListFilter)
    requires f.limit >= 1
    ensures NoneTwice(ListOf(db, search, f).rows)
  {
    ReplyIs(db, search, f);
    var r := ListOf(db, search, f);
    assert forall i | 0 <= i < |r.rows| :: OnReply(db, search, f, r, i);
    assert forall i, j | 0 <= i < j < |r.rows| :: PlaceOf(search, f, r.rows[i]) != PlaceOf(search, f, r.rows[j]);
  }

  /** Until the walk has passed the place `p`, the note matches at each page and stands there. */
  ghost predicate StaysUntilPassed(dbs: seq<Db>, search: Search, f: ListFilter, id: Uuid, p: Pos)
    requires f.limit >= 1
    decreases |dbs|
  {
    dbs == [] || !BelowStart(f, p) ||
    (&& Selected(dbs[0], search, f, id) && PosOf(search, f, id, dbs[0].notes[id]) == p
     && var reply := ListOf(dbs[0], search, f);
        reply.next.None? || StaysUntilPassed(dbs[1..], search, f.(cursor := reply.next), id, p))
  }

  predicate Present(rows: seq<ListRow>, id: Uuid) {
    exists i :: 0 <= i < |rows| && rows[i].id == id
  }

  /** In either order, a finished walk has received every note that stood still until it was passed. */
  lemma {:induction false} UntouchedIsReceived(dbs: seq<Db>, search: Search, f: ListFilter, id: Uuid, p: Pos)
    requires f.limit >= 1 && Finishes(dbs, search, f)
    requires StaysUntilPassed(dbs, search, f, id, p) && BelowStart(f, p)
    ensures Present(Received(dbs, search, f), id)
    decreases |dbs|
  {
    var r := ListOf(dbs[0], search, f);
    ReplyIs(dbs[0], search, f);
    var rows := Received(dbs, search, f);
    if i :| 0 <= i < |r.rows| && r.rows[i].id == id {
      assert rows[i].id == id;
    } else {
      var f' := f.(cursor := r.next);
      UntouchedIsReceived(dbs[1..], search, f', id, p);
      var later := Received(dbs[1..], search, f');
      var i :| 0 <= i < |later| && later[i].id == id;
      assert rows[|r.rows| + i] == later[i];
    }
  }

  /** The note matches the filter in every state visited, and stands at one place. */
  ghost predicate KeepsPlace(dbs: seq<Db>, search: Search, f: ListFilter, id: Uuid, p: Pos) {
    forall i | 0 <= i < |dbs| :: Selected(dbs[i], search, f, id) && PosOf(search, f, id, dbs[i].notes[id]) == p
  }

  lemma KeepsPlaceOn(dbs: seq<Db>, search: Search, f: ListFilter, g: ListFilter, id: Uuid, p: Pos)
    requires KeepsPlace(dbs, search, f, id, p) && dbs != [] && g == f.(cursor := g.cursor)
    ensures KeepsPlace(dbs[1..], search, g, id, p)
  {
    forall i | 0 <= i < |dbs[1..]|
      ensures Selected(dbs[1..][i], search, g, id) && PosOf(search, g, id, dbs[1..][i].notes[id]) == p
    {
      assert dbs[1..][i] == dbs[i + 1];
      assert Selected(dbs[i + 1], search, f, id);
    }
  }

  lemma {:induction false} KeepsPlaceStays(dbs: seq<Db>, search: Search, f: ListFilter, id: Uuid, p: Pos)
    requires f.limit >= 1 && KeepsPlace(dbs, search, f, id, p)
    ensures StaysUntilPassed(dbs, search, f, id, p)
    decreases |dbs|
  {
    if dbs != [] {
      assert Selected(dbs[0], search, f, id);
      var reply := ListOf(dbs[0], search, f);
      if reply.next.Some? {
        KeepsPlaceOn(dbs, search, f, f.(cursor := reply.next), id, p);
        KeepsPlaceStays(dbs[1..], search, f.(cursor := reply.next), id, p);
      }
    }
  }

  predicate StandsAt(search: Search, f: ListFilter, rows: seq<ListRow>, id: Uuid, p: Pos) {
    forall i | 0 <= i < |rows| && rows[i].id == id :: PlaceOf(search, f, rows[i]) == p
  }

  lemma ReplyShowsPlace(db: Db, search: Search, f: ListFilter, id: Uuid)
    requires f.limit >= 1 && id in db.notes
    ensures StandsAt(search, f, ListOf(db, search, f).rows, id, PosOf(search, f, id, db.notes[id]))
  {
    ReplyIs(db, search, f);
    var r := ListOf(db, search, f);
    assert forall i | 0 <= i < |r.rows| :: OnReply(db, search, f, r, i);
  }

  lemma StandsAtOn(search: Search, f: ListFilter, g: ListFilter, rows: seq<ListRow>, later: seq<ListRow>, id: Uuid,
                   p: Pos)
    requires StandsAt(search, f, rows, id, p) && g == f.(cursor := g.cursor) && StandsAt(search, g, later, id, p)
    ensures StandsAt(search, f, rows + later, id, p)
  {
    assert forall i | 0 <= i < |later| :: PlaceOf(search, f, later[i]) == PlaceOf(search, g, later[i]);
  }

  lemma {:induction false} KeepsPlaceShows(dbs: seq<Db>, search: Search, f: ListFilter, id: Uuid, p: Pos)
    requires f.limit >= 1 && KeepsPlace(dbs, search, f, id, p)
    ensures StandsAt(search, f, Received(dbs, search, f), id, p)
    decreases |dbs|
  {
    if dbs != [] {
      var r := ListOf(dbs[0], search, f);
      assert Selected(dbs[0], search, f, id);
      ReplyShowsPlace(dbs[0], search, f, id);
      if r.next.Some? {
        var f' := f.(cursor := r.next);
        KeepsPlaceOn(dbs, search, f, f', id, p);
        KeepsPlaceShows(dbs[1..], search, f', id, p);
        StandsAtOn(search, f, f', r.rows, Received(dbs[1..], search, f'), id, p);
      }
    }
  }

  predicate Once(rows: seq<ListRow>, id: Uuid) {
    exists i :: 0 <= i < |rows| && rows[i].id == id && forall j | 0 <= j < |rows| && rows[j].id == id :: j == i
  }

  lemma DescentShowsOnce(search: Search, f: ListFilter, rows: seq<ListRow>, id: Uuid, p: Pos)
    requires Present(rows, id) && StandsAt(search, f, rows, id, p) && RowsDescend(search, f, rows)
    ensures Once(rows, id)
  {
    var i :| 0 <= i < |rows| && rows[i].id == id;
    forall j | 0 <= j < |rows| && rows[j].id == id
      ensures j == i
    {
      assert PlaceOf(search, f, rows[i]) == p == PlaceOf(search, f, rows[j]);
    }
  }

  /** In recency and in relevance order, with anything at all happening between the pages: every
      note that keeps matching and keeps its place is received exactly once. */
  lemma WalkSurvivesWriters(dbs: seq<Db>, search: Search, f: ListFilter, id: Uuid, p: Pos)
    requires f.limit >= 1 && Finishes(dbs, search, f)
    requires KeepsPlace(dbs, search, f, id, p) && BelowStart(f, p)
    ensures Once(Received(dbs, search, f), id)
  {
    KeepsPlaceStays(dbs, search, f, id, p);
    UntouchedIsReceived(dbs, search, f, id, p);
    KeepsPlaceShows(dbs, search, f, id, p);
    ReceivedDescends(dbs, search, f);
    DescentShowsOnce(search, f, Received(dbs, search, f), id, p);
  }

  ghost predicate MatchesThroughout(dbs: seq<Db>, search: Search, f: ListFilter, id: Uuid) {
    forall i | 0 <= i < |dbs| :: Selected(dbs[i], search, f, id)
  }

  /** A note that has left the place `p` before the walk passed it is not received in recency order. */
  lemma {:induction false} LeavingIsMissed(dbs: seq<Db>, search: Search, f: ListFilter, id: Uuid, t: int)
    requires f.limit >= 1 && !f.ByRelevance() && Steady(dbs) && dbs != []
    requires MatchesThroughout(dbs, search, f, id) && id in dbs[0].notes && dbs[0].notes[id].updatedAt == t
    requires !StaysUntilPassed(dbs, search, f, id, Pos(t, id))
    ensures Absent(Received(dbs, search, f), id)
    decreases |dbs|
  {
    var r := ListOf(dbs[0], search, f);
    var f' := f.(cursor := r.next);
    assert r.next.Some? && BelowStart(f', Pos(t, id));
    NotAmongRows(dbs[0], search, f, id);
    SteadyTail(dbs);
    MatchesOn(dbs, search, f, f', id);
    if dbs[1].notes[id].updatedAt == t {
      LeavingIsMissed(dbs[1..], search, f', id, t);
    } else {
      MovingIsPassed(dbs[0], dbs[1], search, f, id);
      PassedOverStaysAway(dbs[1..], search, f', id);
    }
    assert Received(dbs, search, f) == r.rows + Received(dbs[1..], search, f');
  }

  lemma MatchesOn(dbs: seq<Db>, search: Search, f: ListFilter, g: ListFilter, id: Uuid)
    requires dbs != [] && MatchesThroughout(dbs, search, f, id) && g == f.(cursor := g.cursor)
    ensures MatchesThroughout(dbs[1..], search, g, id)
  {
    assert forall i | 0 <= i < |dbs[1..]| :: dbs[1..][i] == dbs[i + 1] && Selected(dbs[i + 1], search, f, id);
  }

  /** A note that was changed since a page was fetched stands above the cursor sent with that page. */
  lemma MovingIsPassed(a: Db, b: Db, search: Search, f: ListFilter, id: Uuid)
    requires f.limit >= 1 && !f.ByRelevance() && NotesOk(a) && Evolves(a, b) && ListOf(a, search, f).next.Some?
    requires id in a.notes && id in b.notes && b.notes[id].updatedAt != a.notes[id].updatedAt
    ensures Passed(b, f.(cursor := ListOf(a, search, f).next), id)
  {
    ReplyIs(a, search, f);
    assert OnReply(a, search, f, ListOf(a, search, f), f.limit - 1);
  }

  /** A note below the cursor sent is not among the rows sent with it. */
  lemma NotAmongRows(db: Db, search: Search, f: ListFilter, id: Uuid)
    requires f.limit >= 1 && id in db.notes && ListOf(db, search, f).next.Some?
    requires BelowStart(f.(cursor := ListOf(db, search, f).next), PosOf(search, f, id, db.notes[id]))
    ensures Absent(ListOf(db, search, f).rows, id)
  {
    var r := ListOf(db, search, f);
    ReplyIs(db, search, f);
    forall i | 0 <= i < |r.rows|
      ensures r.rows[i].id != id
    {
      RowsAreNotBelowNext(db, search, f, i);
      assert OnReply(db, search, f, r, i);
    }
  }

  /** Exactly which matches a finished walk in recency order misses: a note that matches throughout
      is received if and only if nobody changed it until the walk had passed it. */
  lemma ChangedNoteIsPassedOver(dbs: seq<Db>, search: Search, f: ListFilter, id: Uuid, t: int)
    requires f.limit >= 1 && !f.ByRelevance() && Steady(dbs) && Finishes(dbs, search, f)
    requires MatchesThroughout(dbs, search, f, id) && id in dbs[0].notes && dbs[0].notes[id].updatedAt == t
    requires BelowStart(f, Pos(t, id))
    ensures Present(Received(dbs, search, f), id) <==> StaysUntilPassed(dbs, search, f, id, Pos(t, id))
  {
    if StaysUntilPassed(dbs, search, f, id, Pos(t, id)) {
      UntouchedIsReceived(dbs, search, f, id, Pos(t, id));
    } else {
      LeavingIsMissed(dbs, search, f, id, t);
    }
  }

  /** The same of handlers at work: between the pages of a walk in recency order, anyone may do
      anything. */
  lemma RunsPassOverChangedNote(cfg: Config, dbs: seq<Db>, search: Search, f: ListFilter, id: Uuid, t: int)
    requires f.limit >= 1 && !f.ByRelevance() && Visits(cfg, dbs) && Finishes(dbs, search, f)
    requires MatchesThroughout(dbs, search, f, id) && id in dbs[0].notes && dbs[0].notes[id].updatedAt == t
    requires BelowStart(f, Pos(t, id))
    ensures if StaysUntilPassed(dbs, search, f, id, Pos(t, id)) then Once(Received(dbs, search, f), id)
            else Absent(Received(dbs, search, f), id)
  {
    VisitsEvolve(cfg, dbs);
    ChangedNoteIsPassedOver(dbs, search, f, id, t);
    NoNoteTwice(dbs, search, f);
    PresentOnceOrAbsent(Received(dbs, search, f), id);
  }

  lemma PresentOnceOrAbsent(rows: seq<ListRow>, id: Uuid)
    requires NoneTwice(rows)
    ensures if Present(rows, id) then Once(rows, id) else Absent(rows, id)
  {
    if i :| 0 <= i < |rows| && rows[i].id == id {
      assert forall j | 0 <= j < |rows| && rows[j].id == id :: j == i;
    }
  }

  /** The notes the walk has yet to pass. */
  ghost function Ahead(db: Db, f: ListFilter): set<Uuid> {
    set id | id in db.notes && BelowStart(f, Pos(db.notes[id].updatedAt, id))
  }

  /** A page with a cursor leaves at least its own rows behind. */
  lemma PageLeavesBehind(db: Db, search: Search, f: ListFilter)
    requires f.limit >= 1 && !f.ByRelevance()
    requires ListOf(db, search, f).next.Some?
    ensures |Ahead(db, f.(cursor := ListOf(db, search, f).next))| + f.limit <= |Ahead(db, f)|
  {
    var r := ListOf(db, search, f);
    ReplyIs(db, search, f);
    var f' := f.(cursor := r.next);
    var passed := IdsOf(r.rows);
    ReplyHasNoNoteTwice(db, search, f);
    CountIds(r.rows);
    forall id | id in passed
      ensures id in Ahead(db, f) && id !in Ahead(db, f')
    {
      var i :| 0 <= i < |r.rows| && r.rows[i].id == id;
      assert OnReply(db, search, f, r, i);
      RowsAreNotBelowNext(db, search, f, i);
    }
    assert OnReply(db, search, f, r, f.limit - 1);
    assert Ahead(db, f') <= Ahead(db, f) - passed;
    Smaller(Ahead(db, f'), Ahead(db, f) - passed);
    assert |Ahead(db, f) - passed| == |Ahead(db, f)| - |passed * Ahead(db, f)|;
    assert passed * Ahead(db, f) == passed;
  }

  function IdsOf(rows: seq<ListRow>): set<Uuid> {
    set r | r in rows :: r.id
  }

  lemma IdsOfLast(rows: seq<ListRow>)
    requires rows != []
    ensures IdsOf(rows) == IdsOf(rows[..|rows| - 1]) + {rows[|rows| - 1].id}
  {
    assert rows == rows[..|rows| - 1] + [rows[|rows| - 1]];
  }

  lemma {:induction false} CountIds(rows: seq<ListRow>)
    requires NoneTwice(rows)
    ensures |IdsOf(rows)| == |rows|
  {
    if rows != [] {
      var n := |rows| - 1;
      CountIds(rows[..n]);
      IdsOfLast(rows);
      assert rows[n].id !in IdsOf(rows[..n]);
    }
  }

  lemma {:induction false} Smaller(a: set<Uuid>, b: set<Uuid>)
    requires a <= b
    ensures |a| <= |b|
  {
    if a != {} {
      var x :| x in a;
      Smaller(a - {x}, b - {x});
    }
  }

  /** Nothing new appears below a cursor, so what lies ahead only shrinks. */
  lemma AheadShrinks(a: Db, b: Db, f: ListFilter)
    requires !f.ByRelevance() && Evolves(a, b) && f.cursor.Some? && f.cursor.value.updatedAt <= a.now
    ensures Ahead(b, f) <= Ahead(a, f)
  {
  }

  /** The walk ends within as many pages as the notes below its start would fill, whatever happens
      meanwhile. */
  lemma {:induction false} WalkFinishes(dbs: seq<Db>, search: Search, f: ListFilter)
    requires f.limit >= 1 && !f.ByRelevance() && Steady(dbs)
    requires dbs != [] && |Ahead(dbs[0], f)| <= |dbs| * f.limit
    ensures Finishes(dbs, search, f)
    decreases |dbs|
  {
    var r := ListOf(dbs[0], search, f);
    if r.next.Some? {
      PageLeavesBehind(dbs[0], search, f);
      var f' := f.(cursor := r.next);
      MoreThanAPage(dbs[0], search, f);
      assert |dbs| * f.limit - f.limit == (|dbs| - 1) * f.limit;
      if |dbs| > 1 {
        SteadyTail(dbs);
        ReplyIs(dbs[0], search, f);
        var last := r.rows[f.limit - 1];
        assert last.note == dbs[0].notes[last.id];
        AheadShrinks(dbs[0], dbs[1], f');
        Smaller(Ahead(dbs[1], f'), Ahead(dbs[0], f'));
        WalkFinishes(dbs[1..], search, f');
      }
    }
  }

  /** A walk in recency order between whose pages handlers run, as often and for whom they may: no
      note comes twice, and the walk ends within as many pages as the notes below its start fill. */
  lemma RunsLeaveWalkSound(cfg: Config, dbs: seq<Db>, search: Search, f: ListFilter)
    requires f.limit >= 1 && !f.ByRelevance() && Visits(cfg, dbs)
    ensures NoneTwice(Received(dbs, search, f))
    ensures dbs != [] && |Ahead(dbs[0], f)| <= |dbs| * f.limit ==> Finishes(dbs, search, f)
  {
    VisitsEvolve(cfg, dbs);
    NoNoteTwice(dbs, search, f);
    if dbs != [] && |Ahead(dbs[0], f)| <= |dbs| * f.limit {
      WalkFinishes(dbs, search, f);
    }
  }

  /** The matches below the start, in the order of the filter. */
  ghost function Waiting(db: Db, search: Search, f: ListFilter): set<Uuid> {
    set id | id in db.notes && Selected(db, search, f, id) && BelowStart(f, PosOf(search, f, id, db.notes[id]))
  }

  /** A page with a cursor takes its rows, and nothing else, from the matches that wait. */
  lemma PageTakesItsRows(db: Db, search: Search, f: ListFilter)
    requires f.limit >= 1 && ListOf(db, search, f).next.Some?
    ensures var next := f.(cursor := ListOf(db, search, f).next);
            |Waiting(db, search, next)| + f.limit == |Waiting(db, search, f)| && Waiting(db, search, next) != {}
  {
    var r := ListOf(db, search, f);
    var f' := f.(cursor := r.next);
    var passed := IdsOf(r.rows);
    ReplyIs(db, search, f);
    ReplyHasNoNoteTwice(db, search, f);
    CountIds(r.rows);
    forall id
      ensures id in Waiting(db, search, f') <==> id in Waiting(db, search, f) && id !in passed
    {
      StillWaits(db, search, f, id);
    }
    assert Waiting(db, search, f') == Waiting(db, search, f) - passed;
    assert forall i | 0 <= i < |r.rows| :: OnReply(db, search, f, r, i);
    assert passed <= Waiting(db, search, f);
    MoreIsWaiting(db, search, f);
  }

  lemma StillWaits(db: Db, search: Search, f: ListFilter, id: Uuid)
    requires f.limit >= 1 && ListOf(db, search, f).next.Some?
    ensures var r := ListOf(db, search, f);
            id in Waiting(db, search, f.(cursor := r.next)) <==> id in Waiting(db, search, f) && id !in IdsOf(r.rows)
  {
    var r := ListOf(db, search, f);
    var f' := f.(cursor := r.next);
    ReplyIs(db, search, f);
    assert OnReply(db, search, f, r, f.limit - 1);
    if id in Waiting(db, search, f') {
      assert Selected(db, search, f, id);
      NotAmongRows(db, search, f, id);
    }
  }

  lemma MoreIsWaiting(db: Db, search: Search, f: ListFilter)
    requires f.limit >= 1 && ListOf(db, search, f).next.Some?
    ensures Waiting(db, search, f.(cursor := ListOf(db, search, f).next)) != {}
  {
    var s := Candidates(db, search, f);
    PageIsTopOfRemaining(s, Start(f), f.limit);
    CursorIsNextStart(db, search, f);
    var p :| p in Remaining(s, PageFrom(s, Start(f), f.limit).next);
    assert p.id in Waiting(db, search, f.(cursor := ListOf(db, search, f).next));
  }

  /** Between two pages no match appears below the cursor, and none falls below it. */
  ghost predicate NothingFalls(dbs: seq<Db>, search: Search, f: ListFilter)
    requires f.limit >= 1
    decreases |dbs|
  {
    |dbs| <= 1 ||
    var next := ListOf(dbs[0], search, f).next;
    next.None? ||
    var g := f.(cursor := next);
    Waiting(dbs[1], search, g) <= Waiting(dbs[0], search, g) && NothingFalls(dbs[1..], search, g)
  }

  /** In either order, a walk during which nothing falls below the cursor ends within as many pages as
      the matches below its start fill. */
  lemma {:induction false} WalkFinishesUnlessNotesFall(dbs: seq<Db>, search: Search, f: ListFilter)
    requires f.limit >= 1 && NothingFalls(dbs, search, f)
    requires dbs != [] && |Waiting(dbs[0], search, f)| <= |dbs| * f.limit
    ensures Finishes(dbs, search, f)
    decreases |dbs|
  {
    var next := ListOf(dbs[0], search, f).next;
    if next.Some? {
      var g := f.(cursor := next);
      PageTakesItsRows(dbs[0], search, f);
      assert |dbs| * f.limit - f.limit == (|dbs| - 1) * f.limit;
      if |dbs| > 1 {
        Smaller(Waiting(dbs[1], search, g), Waiting(dbs[0], search, g));
        WalkFinishesUnlessNotesFall(dbs[1..], search, g);
      }
    }
  }

  lemma MoreThanAPage(db: Db, search: Search, f: ListFilter)
    requires f.limit >= 1 && !f.ByRelevance() && ListOf(db, search, f).next.Some?
    ensures Ahead(db, f.(cursor := ListOf(db, search, f).next)) != {}
  {
    var s := Candidates(db, search, f);
    PageIsTopOfRemaining(s, Start(f), f.limit);
    CursorIsNextStart(db, search, f);
    var p :| p in Remaining(s, PageFrom(s, Start(f), f.limit).next);
    assert p.id in Ahead(db, f.(cursor := ListOf(db, search, f).next));
  }

  /** The rows are those of a list of positions, in one state. */
  ghost predicate RowsAre(db: Db, search: Search, f: ListFilter, rows: seq<ListRow>, all: seq<Pos>) {
    && |rows| == |all|
    && forall i | 0 <= i < |all| :: IsRow(db, search, f, all[i]) && rows[i] == RowOf(db, search, f, all[i].id)
  }

  lemma RowsAreOn(db: Db, search: Search, f: ListFilter, rows: seq<ListRow>, all: seq<Pos>, laterRows: seq<ListRow>,
                  rest: seq<Pos>)
    requires RowsAre(db, search, f, rows, all) && RowsAre(db, search, f, laterRows, rest)
    ensures RowsAre(db, search, f, rows + laterRows, all + rest)
  {
  }

  lemma SameFilterSameRows(db: Db, search: Search, f: ListFilter, g: ListFilter, rows: seq<ListRow>, all: seq<Pos>)
    requires g == f.(cursor := g.cursor) && RowsAre(db, search, g, rows, all)
    ensures RowsAre(db, search, f, rows, all)
  {
    SameFilterSameCandidates(db, search, f, g);
    assert forall i | 0 <= i < |all| :: IsRow(db, search, g, all[i]) && rows[i] == RowOf(db, search, g, all[i].id);
  }

  lemma PageRowsAre(db: Db, search: Search, f: ListFilter)
    requires f.limit >= 1
    ensures var page := PageFrom(Candidates(db, search, f), Start(f), f.limit);
            RowsAre(db, search, f, ListOf(db, search, f).rows, page.rows)
  {
    PageRowsExist(db, search, f);
  }

  /** While nothing changes, in either order, the positions received are the pages of the list. */
  lemma {:induction false} SteadyStateGivesPages(dbs: seq<Db>, search: Search, f: ListFilter)
    requires f.limit >= 1 && dbs != [] && forall i | 0 <= i < |dbs| :: dbs[i] == dbs[0]
    requires |dbs| >= |Pages(Candidates(dbs[0], search, f), Start(f), f.limit)|
    ensures Finishes(dbs, search, f)
    ensures |Replies(dbs, search, f)| == |Pages(Candidates(dbs[0], search, f), Start(f), f.limit)|
    ensures var all := Descending(Remaining(Candidates(dbs[0], search, f), Start(f)));
            RowsAre(dbs[0], search, f, Received(dbs, search, f), all)
    decreases |dbs|
  {
    var db := dbs[0];
    var s := Candidates(db, search, f);
    var page := PageFrom(s, Start(f), f.limit);
    PageRowsAre(db, search, f);
    CursorIsNextStart(db, search, f);
    var r := ListOf(db, search, f);
    if r.next.Some? {
      var f' := f.(cursor := r.next);
      RemainingOrder(s, Start(f), f.limit);
      SameFilterSameCandidates(db, search, f, f');
      assert forall i | 0 <= i < |dbs[1..]| :: dbs[1..][i] == dbs[i + 1];
      SteadyStateGivesPages(dbs[1..], search, f');
      var later, rest := Received(dbs[1..], search, f'), Descending(Remaining(s, page.next));
      SameFilterSameRows(db, search, f, f', later, rest);
      RowsAreOn(db, search, f, r.rows, page.rows, later, rest);
    }
  }

  lemma SameFilterSameCandidates(db: Db, search: Search, f: ListFilter, g: ListFilter)
    requires g == f.(cursor := g.cursor)
    ensures Candidates(db, search, f) == Candidates(db, search, g)
    ensures forall p :: IsRow(db, search, f, p) <==> IsRow(db, search, g, p)
    ensures forall id | id in db.notes :: RowOf(db, search, f, id) == RowOf(db, search, g, id)
  {
    assert forall id :: Selected(db, search, f, id) <==> Selected(db, search, g, id);
  }

  /** The filters with which the pages are asked for, one per page that is fetched. */
  ghost function Filters(dbs: seq<Db>, search: Search, f: ListFilter): (fs: seq<ListFilter>)
    requires f.limit >= 1
    ensures |fs| <= |dbs| && (dbs != [] ==> fs != [] && fs[0] == f)
    ensures forall i | 0 <= i < |fs| :: fs[i] == f.(cursor := fs[i].cursor)
    decreases |dbs|
  {
    if dbs == [] then []
    else
      var reply := ListOf(dbs[0], search, f);
      if reply.next.None? then [f] else [f] + Filters(dbs[1..], search, f.(cursor := reply.next))
  }

  /** The note is a row of the `i`th page. */
  ghost predicate OnPage(dbs: seq<Db>, search: Search, f: ListFilter, i: nat, id: Uuid)
    requires f.limit >= 1
  {
    i < |Filters(dbs, search, f)| && Present(ListOf(dbs[i], search, Filters(dbs, search, f)[i]).rows, id)
  }

  lemma FiltersUnfold(dbs: seq<Db>, search: Search, f: ListFilter, i: nat)
    requires f.limit >= 1 && 0 < i < |Filters(dbs, search, f)|
    ensures var next := ListOf(dbs[0], search, f).next;
            var rest := Filters(dbs[1..], search, f.(cursor := next));
            && next.Some? && i - 1 < |rest| && Filters(dbs, search, f)[i] == rest[i - 1] && dbs[i] == dbs[1..][i - 1]
            && Filters(dbs, search, f)[i..] == rest[i - 1..] && dbs[i..] == dbs[1..][i - 1..]
  {
    var rest := Filters(dbs[1..], search, f.(cursor := ListOf(dbs[0], search, f).next));
    assert Filters(dbs, search, f) == [f] + rest;
  }

  /** From the `i`th page on, the walk is the walk from that page's filter. */
  lemma {:induction false} WalkFromPage(dbs: seq<Db>, search: Search, f: ListFilter, i: nat)
    requires f.limit >= 1 && i < |Filters(dbs, search, f)|
    ensures var fs := Filters(dbs, search, f);
            && Filters(dbs[i..], search, fs[i]) == fs[i..]
            && (Finishes(dbs, search, f) ==> Finishes(dbs[i..], search, fs[i]))
    decreases i
  {
    if i == 0 {
      assert dbs[0..] == dbs;
    } else {
      FiltersUnfold(dbs, search, f, i);
      WalkFromPage(dbs[1..], search, f.(cursor := ListOf(dbs[0], search, f).next), i - 1);
    }
  }

  lemma LaterPages(dbs: seq<Db>, search: Search, f: ListFilter, i: nat, id: Uuid)
    requires f.limit >= 1 && dbs != [] && ListOf(dbs[0], search, f).next.Some?
    ensures OnPage(dbs, search, f, i + 1, id) <==>
            OnPage(dbs[1..], search, f.(cursor := ListOf(dbs[0], search, f).next), i, id)
  {
    if i + 1 < |Filters(dbs, search, f)| {
      FiltersUnfold(dbs, search, f, i + 1);
    }
  }

  lemma PageIsReceived(dbs: seq<Db>, search: Search, f: ListFilter, i: nat, id: Uuid)
    requires f.limit >= 1 && OnPage(dbs, search, f, i, id)
    ensures Present(Received(dbs, search, f), id)
    decreases i
  {
    var r := ListOf(dbs[0], search, f);
    var later := if r.next.None? then [] else Received(dbs[1..], search, f.(cursor := r.next));
    PresentOn(r.rows, later, id);
    if i > 0 {
      FiltersUnfold(dbs, search, f, i);
      LaterPages(dbs, search, f, i - 1, id);
      PageIsReceived(dbs[1..], search, f.(cursor := r.next), i - 1, id);
    }
  }

  lemma ReceivedLater(dbs: seq<Db>, search: Search, f: ListFilter, id: Uuid)
    requires f.limit >= 1 && Present(Received(dbs, search, f), id) && !OnPage(dbs, search, f, 0, id)
    ensures dbs != []
    ensures var next := ListOf(dbs[0], search, f).next;
            next.Some? && Present(Received(dbs[1..], search, f.(cursor := next)), id)
  {
    var r := ListOf(dbs[0], search, f);
    var later := if r.next.None? then [] else Received(dbs[1..], search, f.(cursor := r.next));
    PresentOn(r.rows, later, id);
  }

  lemma {:induction false} ReceivedIsOnPage(dbs: seq<Db>, search: Search, f: ListFilter, id: Uuid) returns (i: nat)
    requires f.limit >= 1 && Present(Received(dbs, search, f), id)
    ensures OnPage(dbs, search, f, i, id)
    decreases |dbs|
  {
    if OnPage(dbs, search, f, 0, id) {
      i := 0;
    } else {
      ReceivedLater(dbs, search, f, id);
      var tail, g := dbs[1..], f.(cursor := ListOf(dbs[0], search, f).next);
      var k := ReceivedIsOnPage(tail, search, g, id);
      LaterPages(dbs, search, f, k, id);
      i := k + 1;
      assert OnPage(dbs, search, f, i, id);
    }
  }

  /** A note is received exactly when it is due at some page that is fetched. */
  lemma ReceivedWhenDue(dbs: seq<Db>, search: Search, f: ListFilter, id: Uuid)
    requires f.limit >= 1
    ensures Present(Received(dbs, search, f), id) <==>
            exists i: nat :: i < |Filters(dbs, search, f)| && Due(dbs[i], search, Filters(dbs, search, f)[i], id)
  {
    var fs := Filters(dbs, search, f);
    if Present(Received(dbs, search, f), id) {
      var i := ReceivedIsOnPage(dbs, search, f, id);
      OnReplyWhenDue(dbs[i], search, fs[i], id);
    }
    if i: nat :| i < |fs| && Due(dbs[i], search, fs[i], id) {
      OnReplyWhenDue(dbs[i], search, fs[i], id);
      assert OnPage(dbs, search, f, i, id);
      PageIsReceived(dbs, search, f, i, id);
    }
  }

  lemma PresentOn(rows: seq<ListRow>, later: seq<ListRow>, id: Uuid)
    ensures Present(rows + later, id) <==> Present(rows, id) || Present(later, id)
  {
    if k :| 0 <= k < |rows| && rows[k].id == id {
      assert (rows + later)[k].id == id;
    }
    if k :| 0 <= k < |later| && later[k].id == id {
      assert (rows + later)[|rows| + k].id == id;
    }
  }

  /** At the `j`th page the walk has passed everything received on the pages before. */
  lemma {:induction false} PagesArePassed(dbs: seq<Db>, search: Search, f: ListFilter, i: nat, j: nat, k: nat)
    requires f.limit >= 1 && i < j < |Filters(dbs, search, f)|
    requires k < |ListOf(dbs[i], search, Filters(dbs, search, f)[i]).rows|
    ensures var fs := Filters(dbs, search, f);
            !BelowStart(fs[j], PlaceOf(search, f, ListOf(dbs[i], search, fs[i]).rows[k]))
    decreases j
  {
    var f' := f.(cursor := ListOf(dbs[0], search, f).next);
    if i > 0 {
      FiltersUnfold(dbs, search, f, i);
      FiltersUnfold(dbs, search, f, j);
      PagesArePassed(dbs[1..], search, f', i - 1, j - 1, k);
    } else {
      FirstPageIsPassed(dbs, search, f, j, k);
    }
  }

  lemma FirstPageIsPassed(dbs: seq<Db>, search: Search, f: ListFilter, j: nat, k: nat)
    requires f.limit >= 1 && 0 < j < |Filters(dbs, search, f)| && k < |ListOf(dbs[0], search, f).rows|
    ensures !BelowStart(Filters(dbs, search, f)[j], PlaceOf(search, f, ListOf(dbs[0], search, f).rows[k]))
  {
    var f' := f.(cursor := ListOf(dbs[0], search, f).next);
    RowsAreNotBelowNext(dbs[0], search, f, k);
    FiltersUnfold(dbs, search, f, j);
    if j > 1 {
      StartsFall(dbs[1..], search, f', j - 1);
    }
  }

  lemma {:induction false} StartsFall(dbs: seq<Db>, search: Search, f: ListFilter, j: nat)
    requires f.limit >= 1 && 0 < j < |Filters(dbs, search, f)|
    ensures var fs := Filters(dbs, search, f);
            Start(fs[j]).Some? && BelowStart(f, Start(fs[j]).value)
    decreases j
  {
    ReplyIs(dbs[0], search, f);
    var r := ListOf(dbs[0], search, f);
    assert OnReply(dbs[0], search, f, r, f.limit - 1);
    FiltersUnfold(dbs, search, f, j);
    if j > 1 {
      StartsFall(dbs[1..], search, f.(cursor := r.next), j - 1);
    }
  }

  /** The note's place when the `i`th page is fetched. */
  ghost function PlaceAt(dbs: seq<Db>, search: Search, f: ListFilter, i: nat, id: Uuid): Pos
    requires i < |dbs| && id in dbs[i].notes
  {
    PosOf(search, f, id, dbs[i].notes[id])
  }

  /** When the `j`th page is asked for the note lies below its start, and stays there until passed. */
  ghost predicate LiesAhead(dbs: seq<Db>, search: Search, f: ListFilter, j: nat, id: Uuid)
    requires f.limit >= 1
  {
    && j < |Filters(dbs, search, f)| && id in dbs[j].notes
    && var g, p := Filters(dbs, search, f)[j], PlaceAt(dbs, search, f, j, id);
       BelowStart(g, p) && StaysUntilPassed(dbs[j..], search, g, id, p)
  }

  /** Exactly when a note that was received on page `i` is received again, in either order and
      whatever happens in between: if at some later page it matches below that page's start, and
      stays there until passed. Its place has then fallen below the one where it was received. */
  lemma FallenRankIsReceivedAgain(dbs: seq<Db>, search: Search, f: ListFilter, id: Uuid, i: nat)
    requires f.limit >= 1 && Finishes(dbs, search, f) && OnPage(dbs, search, f, i, id)
    ensures (exists j :: j > i && OnPage(dbs, search, f, j, id)) <==>
            (exists j :: j > i && LiesAhead(dbs, search, f, j, id))
    ensures id in dbs[i].notes
    ensures forall j | j > i && LiesAhead(dbs, search, f, j, id) ::
              Below(PlaceAt(dbs, search, f, j, id), PlaceAt(dbs, search, f, i, id))
  {
    RowStandsAtPlace(dbs, search, f, i, id);
    if j :| j > i && OnPage(dbs, search, f, j, id) {
      ReceivedLaysAhead(dbs, search, f, j, id);
    }
    if j :| j > i && LiesAhead(dbs, search, f, j, id) {
      AheadIsReceived(dbs, search, f, j, id);
    }
    forall j | j > i && LiesAhead(dbs, search, f, j, id)
      ensures Below(PlaceAt(dbs, search, f, j, id), PlaceAt(dbs, search, f, i, id))
    {
      AheadHasFallen(dbs, search, f, id, i, j);
    }
  }

  lemma AheadHasFallen(dbs: seq<Db>, search: Search, f: ListFilter, id: Uuid, i: nat, j: nat)
    requires f.limit >= 1 && i < j && OnPage(dbs, search, f, i, id) && LiesAhead(dbs, search, f, j, id)
    ensures id in dbs[i].notes && Below(PlaceAt(dbs, search, f, j, id), PlaceAt(dbs, search, f, i, id))
  {
    var rows := ListOf(dbs[i], search, Filters(dbs, search, f)[i]).rows;
    RowStandsAtPlace(dbs, search, f, i, id);
    var k :| 0 <= k < |rows| && rows[k].id == id;
    PagesArePassed(dbs, search, f, i, j, k);
  }

  lemma RowStandsAtPlace(dbs: seq<Db>, search: Search, f: ListFilter, i: nat, id: Uuid)
    requires f.limit >= 1 && OnPage(dbs, search, f, i, id)
    ensures id in dbs[i].notes
    ensures var rows := ListOf(dbs[i], search, Filters(dbs, search, f)[i]).rows;
            forall k | 0 <= k < |rows| && rows[k].id == id ::
              PlaceOf(search, f, rows[k]) == PlaceAt(dbs, search, f, i, id)
  {
    var g := Filters(dbs, search, f)[i];
    ReplyIs(dbs[i], search, g);
    var r := ListOf(dbs[i], search, g);
    assert forall k | 0 <= k < |r.rows| :: OnReply(dbs[i], search, g, r, k);
  }

  lemma RowIsPassed(dbs: seq<Db>, search: Search, g: ListFilter, k: nat)
    requires g.limit >= 1 && dbs != [] && k < |ListOf(dbs[0], search, g).rows|
    ensures var row := ListOf(dbs[0], search, g).rows[k];
            BelowStart(g, PlaceOf(search, g, row)) && StaysUntilPassed(dbs, search, g, row.id, PlaceOf(search, g, row))
  {
    ReplyIs(dbs[0], search, g);
    var r := ListOf(dbs[0], search, g);
    assert OnReply(dbs[0], search, g, r, k);
    if r.next.Some? {
      RowsAreNotBelowNext(dbs[0], search, g, k);
    }
  }

  lemma ReceivedLaysAhead(dbs: seq<Db>, search: Search, f: ListFilter, j: nat, id: Uuid)
    requires f.limit >= 1 && OnPage(dbs, search, f, j, id)
    ensures LiesAhead(dbs, search, f, j, id)
  {
    var g := Filters(dbs, search, f)[j];
    var rows := ListOf(dbs[j], search, g).rows;
    var k :| 0 <= k < |rows| && rows[k].id == id;
    RowStandsAtPlace(dbs, search, f, j, id);
    assert dbs[j..][0] == dbs[j];
    RowIsPassed(dbs[j..], search, g, k);
  }

  lemma AheadIsReceived(dbs: seq<Db>, search: Search, f: ListFilter, j: nat, id: Uuid)
    requires f.limit >= 1 && Finishes(dbs, search, f) && LiesAhead(dbs, search, f, j, id)
    ensures exists k :: k >= j && OnPage(dbs, search, f, k, id)
  {
    var fs := Filters(dbs, search, f);
    WalkFromPage(dbs, search, f, j);
    UntouchedIsReceived(dbs[j..], search, fs[j], id, PlaceAt(dbs, search, f, j, id));
    var k := ReceivedIsOnPage(dbs[j..], search, fs[j], id);
    assert fs[j..][k] == fs[j + k] && dbs[j..][k] == dbs[j + k];
    assert OnPage(dbs, search, f, j + k, id);
  }
}
