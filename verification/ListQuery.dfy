/** The query string of the note list (internal/notes/list.go): how it becomes a filter, and how a
    client walks the list by sending `next_cursor` back. */
module ListQuery {
  import opened Wrappers
  import opened Numerals
  import opened Uuids
  import opened Schema
  import opened Cursors
  import opened Listing
  import opened Keyset
  import opened Access
  import Text
  import Tags
  import Walk

  const DEFAULT_LIMIT := 25
  const MAX_LIMIT := 100

  /** The query parameters. One that is not sent reads as the empty string. */
  datatype Query = Query(
    q: string, tags: seq<string>, owner: string, team: string,
    sharedWithMe: string, deleted: string, limit: string, cursor: string
  )

  /** The parameter a 400 names. */
  datatype BadParameter = BadOwner | BadTeam | BadLimit | BadCursor | OwnAndShared

  /** An optional parameter: absent, or parsed. */
  function Optional<T>(raw: string, parsed: Option<T>): Result<Option<T>, ()> {
    if raw == "" then Ok(None) else if parsed.Some? then Ok(parsed) else Err(())
  }

  function OwnerOf(caller: Uuid, raw: string): Option<Uuid> {
    if raw == "me" then Some(caller) else Parse(raw)
  }

  function LimitOf(raw: string): Option<nat> {
    match ParseInt(raw, Int64)
    case Some(n) => if n < 1 then None else Some(if n > MAX_LIMIT then MAX_LIMIT else n)
    case None => None
  }

  /** The filter a query stands for, or the first parameter at fault. */
  function Parsed(caller: Uuid, query: Query, lower: char -> char, text: RankText): Result<ListFilter, BadParameter> {
    var owner := Optional(query.owner, OwnerOf(caller, query.owner));
    var team := Optional(query.team, Parse(query.team));
    var limit := Optional(query.limit, LimitOf(query.limit));
    var cursor := Optional(query.cursor, Decode(query.cursor, text));
    if owner.Err? then Err(BadOwner)
    else if team.Err? then Err(BadTeam)
    else if limit.Err? then Err(BadLimit)
    else if cursor.Err? then Err(BadCursor)
    else if query.sharedWithMe == "true" && owner.value == Some(caller) then Err(OwnAndShared)
    else
      Ok(ListFilter(caller, Text.TrimSpace(query.q), Tags.Kept(query.tags, lower), owner.value, team.value,
                    query.sharedWithMe == "true", query.deleted == "true",
                    if limit.value.Some? then limit.value.value else DEFAULT_LIMIT, cursor.value))
  }

  /** The tags asked for: trimmed, lower-cased and not blank. */
  method CleanTags(tags: seq<string>, lower: char -> char) returns (kept: seq<string>)
    ensures kept == Tags.Kept(tags, lower)
  {
    kept := [];
    for i := 0 to |tags|
      invariant kept == Tags.Kept(tags[..i], lower)
    {
      Tags.KeptStep(tags, i, lower);
      var t := Tags.Clean(tags[i], lower);
      if t != "" {
        kept := kept + [t];
      }
    }
    assert tags[..|tags|] == tags;
  }

  method ParseOwner(caller: Uuid, raw: string) returns (id: Option<Uuid>)
    ensures id == OwnerOf(caller, raw)
  {
    if raw == "me" {
      return Some(caller);
    }
    id := Parse(raw);
  }

  method ParseLimit(raw: string) returns (limit: Option<nat>)
    ensures limit == LimitOf(raw)
  {
    var n := ParseInt(raw, Int64);
    if n.None? || n.value < 1 {
      return None;
    }
    limit := Some(if n.value > MAX_LIMIT then MAX_LIMIT else n.value);
  }

  /** `parseListFilter` fills the filter field by field, and stops at the first bad parameter. */
  method ParseListFilter(caller: Uuid, query: Query, lower: char -> char, text: RankText)
    returns (r: Result<ListFilter, BadParameter>)
    ensures r == Parsed(caller, query, lower, text)
  {
    var f := ListFilter(caller, Text.TrimSpace(query.q), [], None, None,
                        query.sharedWithMe == "true", query.deleted == "true", DEFAULT_LIMIT, None);
    var kept := CleanTags(query.tags, lower);
    f := f.(tags := kept);
    if query.owner != "" {
      var id := ParseOwner(f.user, query.owner);
      if id.None? {
        return Err(BadOwner);
      }
      f := f.(owner := id);
    }
    if query.team != "" {
      var id := Parse(query.team);
      if id.None? {
        return Err(BadTeam);
      }
      f := f.(team := id);
    }
    if query.limit != "" {
      var n := ParseLimit(query.limit);
      if n.None? {
        return Err(BadLimit);
      }
      f := f.(limit := n.value);
    }
    if query.cursor != "" {
      var c := Decode(query.cursor, text);
      if c.None? {
        return Err(BadCursor);
      }
      f := f.(cursor := c);
    }
    if f.sharedWithMe && f.owner.Some? && f.owner.value == f.user {
      return Err(OwnAndShared);
    }
    r := Ok(f);
  }

  /** A filter that is accepted asks for the caller's own view, for a page of 1 to 100 notes, and
      never for notes that are at once the caller's and somebody else's. */
  lemma ParsedFilterIsUsable(caller: Uuid, query: Query, lower: char -> char, text: RankText)
    ensures var r := Parsed(caller, query, lower, text);
            r.Ok? ==>
              && r.value.user == caller
              && 1 <= r.value.limit <= MAX_LIMIT
              && !(r.value.sharedWithMe && r.value.owner == Some(caller))
              && (query.cursor == "" ==> r.value.cursor.None?)
              && (r.value.cursor.Some? ==>
                    Int64.Holds(r.value.cursor.value.updatedAt) && InRange(r.value.cursor.value.id))
  {
    ParsedIsInRangeEverywhere();
  }

  lemma ParsedIsInRangeEverywhere()
    ensures forall s {:trigger Parse(s)} :: Parse(s).Some? ==> InRange(Parse(s).value)
  {
    forall s
      ensures Parse(s).Some? ==> InRange(Parse(s).value)
    {
      ParsedIsInRange(s);
    }
  }

  /** Every positive numeral is a limit, clamped when it is large; zero and its negatives are none. */
  lemma LimitIsClamped(n: int)
    requires Int64.Holds(n)
    ensures LimitOf(Signed(n)) == if n < 1 then None else if n <= MAX_LIMIT then Some(n) else Some(MAX_LIMIT)
  {
    ParseIntInvertsSigned(n, Int64);
  }

  /** Tags are cleaned the same way when a note is written and when the list is asked: a note
      written with some tags matches a tag query exactly when each tag asked for that is not blank
      reads, once trimmed and lower-cased, like one of the tags the writer gave. */
  lemma TagQueryFindsTagged(written: seq<string>, asked: seq<string>, lower: char -> char)
    requires Tags.Normalized(written, lower).Ok?
    ensures (forall t | t in Tags.Kept(asked, lower) :: t in Tags.Normalized(written, lower).value) <==>
            (forall i | 0 <= i < |asked| && Tags.Clean(asked[i], lower) != "" ::
               exists j :: 0 <= j < |written| && Tags.Clean(asked[i], lower) == Tags.Clean(written[j], lower))
  {
    Tags.KeptAreClean(asked, lower);
    Tags.NormalizedTagsAre(written, lower);
    var kept, stored := Tags.Kept(asked, lower), Tags.Normalized(written, lower).value;
    if forall t | t in kept :: t in stored {
      forall i | 0 <= i < |asked| && Tags.Clean(asked[i], lower) != ""
        ensures exists j :: 0 <= j < |written| && Tags.Clean(asked[i], lower) == Tags.Clean(written[j], lower)
      {
        assert Tags.Clean(asked[i], lower) in kept;
      }
    } else {
      var t :| t in kept && t !in stored;
      var i :| 0 <= i < |asked| && t == Tags.Clean(asked[i], lower);
      assert t != "" && forall j | 0 <= j < |written| :: t != Tags.Clean(written[j], lower);
    }
  }

  /** The request for the page after `c`: the same query, with the cursor that was sent. */
  function Following(query: Query, c: Cursor, text: RankText): Query
    requires text.Faithful(c.rank)
  {
    query.(cursor := Encode(c, text))
  }

  /** Sending `next_cursor` back asks for the same filter, from that position on. */
  lemma FollowingAsksForTheRest(caller: Uuid, query: Query, lower: char -> char, text: RankText, c: Cursor)
    requires Parsed(caller, query, lower, text).Ok?
    requires InRange(c.id) && text.Faithful(c.rank) && Int64.Holds(c.updatedAt)
    ensures var f := Parsed(caller, query, lower, text).value;
            Parsed(caller, Following(query, c, text), lower, text) == Ok(f.(cursor := Some(c)))
  {
    DecodeInvertsEncode(c, text);
    NothingDecodesToNoCursor(text);
  }

  /** The empty text is no cursor, so an encoded one is never taken for an absent parameter. */
  lemma NothingDecodesToNoCursor(text: RankText)
    ensures Decode("", text) == None
  {
    assert Split("") == [""];
  }

  /** Every note's position has a text. */
  ghost predicate Encodable(db: Db, text: RankText) {
    && (forall r: Rank :: text.Faithful(r))
    && (forall id | id in db.notes :: InRange(id) && Int64.Holds(db.notes[id].updatedAt))
  }

  /** The rows a client receives that sends one query after the other, each with the `next_cursor`
      of the reply before it. */
  ghost function Collected(dbs: seq<Db>, search: Search, lower: char -> char, text: RankText, caller: Uuid,
                           query: Query): seq<ListRow>
    requires forall r: Rank :: text.Faithful(r)
    decreases |dbs|
  {
    var parsed := Parsed(caller, query, lower, text);
    if dbs == [] || parsed.Err? then []
    else
      ParsedFilterIsUsable(caller, query, lower, text);
      var reply := ListOf(dbs[0], search, parsed.value);
      reply.rows +
      if reply.next.None? then []
      else Collected(dbs[1..], search, lower, text, caller, Following(query, reply.next.value, text))
  }

  lemma CursorSentIsEncodable(db: Db, search: Search, f: ListFilter, text: RankText)
    requires f.limit >= 1 && Encodable(db, text) && ListOf(db, search, f).next.Some?
    ensures var c := ListOf(db, search, f).next.value;
            InRange(c.id) && Int64.Holds(c.updatedAt) && text.Faithful(c.rank)
  {
    var page := PageOf(db, search, f);
    PageRowsExist(db, search, f);
    assert IsRow(db, search, f, page.rows[|page.rows| - 1]);
  }

  ghost function PageOf(db: Db, search: Search, f: ListFilter): Page
    requires f.limit >= 1
  {
    PageFrom(Candidates(db, search, f), Start(f), f.limit)
  }

  /** The walk through texts is the walk through positions, for which the module `Walk` says what
      is received while others write. */
  lemma {:induction false} TextsCarryTheWalk(dbs: seq<Db>, search: Search, lower: char -> char, text: RankText,
                                              caller: Uuid, query: Query)
    requires forall r: Rank :: text.Faithful(r)
    requires forall i | 0 <= i < |dbs| :: Encodable(dbs[i], text)
    requires Parsed(caller, query, lower, text).Ok?
    ensures Parsed(caller, query, lower, text).value.limit >= 1
    ensures Collected(dbs, search, lower, text, caller, query)
         == Walk.Received(dbs, search, Parsed(caller, query, lower, text).value)
    decreases |dbs|
  {
    ParsedFilterIsUsable(caller, query, lower, text);
    if dbs != [] {
      var f := Parsed(caller, query, lower, text).value;
      var reply := ListOf(dbs[0], search, f);
      if reply.next.Some? {
        assert Encodable(dbs[0], text);
        CursorSentIsEncodable(dbs[0], search, f, text);
        FollowingAsksForTheRest(caller, query, lower, text, reply.next.value);
        assert forall i | 0 <= i < |dbs[1..]| :: dbs[1..][i] == dbs[i + 1];
        TextsCarryTheWalk(dbs[1..], search, lower, text, caller, Following(query, reply.next.value, text));
      }
    }
  }

  /** What a client sees who walks the list in recency order while handlers run: no note twice. */
  lemma ClientSeesNoNoteTwice(cfg: Config, dbs: seq<Db>, search: Search, text: RankText, caller: Uuid, query: Query)
    requires forall i | 0 <= i < |dbs| :: Encodable(dbs[i], text)
    requires forall r: Rank :: text.Faithful(r)
    requires Parsed(caller, query, cfg.lower, text).Ok? && !Parsed(caller, query, cfg.lower, text).value.ByRelevance()
    requires Walk.Visits(cfg, dbs)
    ensures Walk.NoneTwice(Collected(dbs, search, cfg.lower, text, caller, query))
  {
    TextsCarryTheWalk(dbs, search, cfg.lower, text, caller, query);
    Walk.RunsLeaveWalkSound(cfg, dbs, search, Parsed(caller, query, cfg.lower, text).value);
  }

  /** What a client sees who walks the list, in either order, with any requests by anyone in between:
      each note that keeps matching and keeps its place below the start comes exactly once. */
  lemma ClientMissesNothing(dbs: seq<Db>, search: Search, lower: char -> char, text: RankText, caller: Uuid,
                            query: Query, id: Uuid, p: Pos)
    requires forall i | 0 <= i < |dbs| :: Encodable(dbs[i], text)
    requires forall r: Rank :: text.Faithful(r)
    requires Parsed(caller, query, lower, text).Ok?
    requires var f := Parsed(caller, query, lower, text).value;
             && f.limit >= 1 && Walk.Finishes(dbs, search, f)
             && Walk.KeepsPlace(dbs, search, f, id, p) && Walk.BelowStart(f, p)
    ensures Walk.Once(Collected(dbs, search, lower, text, caller, query), id)
  {
    var f := Parsed(caller, query, lower, text).value;
    TextsCarryTheWalk(dbs, search, lower, text, caller, query);
    Walk.WalkSurvivesWriters(dbs, search, f, id, p);
  }

  /** What each parameter means for the notes that are listed. */
  lemma QueryMeansRows(db: Db, search: Search, caller: Uuid, query: Query, lower: char -> char, text: RankText)
    requires Parsed(caller, query, lower, text).Ok?
    ensures Parsed(caller, query, lower, text).value.limit >= 1
    ensures var rows := ListOf(db, search, Parsed(caller, query, lower, text).value).rows;
            && |rows| <= 100 && (query.limit == "" ==> |rows| <= 25)
            && forall r | r in rows ::
                 && r.id in db.notes && r.note == db.notes[r.id]
                 && (if query.deleted == "true" then r.note.deletedAt.Some? && r.note.owner == caller
                     else r.note.deletedAt.None?)
                 && (query.sharedWithMe == "true" ==> r.note.owner != caller)
                 && (query.owner == "me" ==> r.note.owner == caller)
                 && (query.owner != "" && query.owner != "me" ==> Parse(query.owner) == Some(r.note.owner))
                 && (query.team != "" ==>
                       && Parse(query.team).Some?
                       && GrantKey(r.id, TeamPrincipal(Parse(query.team).value)) in db.shares
                       && Membership(Parse(query.team).value, caller) in db.members)
                 && (forall i | 0 <= i < |query.tags| && Tags.Clean(query.tags[i], lower) != "" ::
                       Tags.Clean(query.tags[i], lower) in r.note.tags)
                 && (Text.TrimSpace(query.q) != "" ==>
                       search.matches(Text.TrimSpace(query.q), r.note.title, r.note.body))
  {
    var f := Parsed(caller, query, lower, text).value;
    ParsedFilterIsUsable(caller, query, lower, text);
    RowsAreFound(db, search, f);
    CursorIsAtEnd(db, search, f);
    Tags.KeptAreClean(query.tags, lower);
    assert forall i | 0 <= i < |query.tags| && Tags.Clean(query.tags[i], lower) != "" ::
        Tags.Clean(query.tags[i], lower) in f.tags;
  }

  /** And conversely: a first page shows every note that fits all parameters, as long as it has room. */
  lemma QueryMissesNoRow(db: Db, search: Search, caller: Uuid, query: Query, lower: char -> char, text: RankText,
                         id: Uuid)
    requires Parsed(caller, query, lower, text).Ok? && query.cursor == ""
    requires id in db.notes && (RoleOn(db, caller, id) > 0 || query.deleted == "true")
    requires var n := db.notes[id];
             && (if query.deleted == "true" then n.deletedAt.Some? && n.owner == caller else n.deletedAt.None?)
             && (query.sharedWithMe == "true" ==> n.owner != caller)
             && (query.owner == "me" ==> n.owner == caller)
             && (query.owner != "" && query.owner != "me" ==> Parse(query.owner) == Some(n.owner))
             && (query.team != "" ==>
                   && Parse(query.team).Some?
                   && GrantKey(id, TeamPrincipal(Parse(query.team).value)) in db.shares
                   && Membership(Parse(query.team).value, caller) in db.members)
             && (forall i | 0 <= i < |query.tags| && Tags.Clean(query.tags[i], lower) != "" ::
                   Tags.Clean(query.tags[i], lower) in n.tags)
             && (Text.TrimSpace(query.q) != "" ==> search.matches(Text.TrimSpace(query.q), n.title, n.body))
    ensures Parsed(caller, query, lower, text).value.limit >= 1
    ensures var reply := ListOf(db, search, Parsed(caller, query, lower, text).value);
            reply.next.None? ==> IsShown(reply.rows, id)
  {
    var f := Parsed(caller, query, lower, text).value;
    ParsedFilterIsUsable(caller, query, lower, text);
    Tags.KeptAreClean(query.tags, lower);
    SomeGrantMatches(db, caller, id);
    assert Selected(db, search, f, id);
    CursorIsAtEnd(db, search, f);
  }

  lemma SomeGrantMatches(db: Db, user: Uuid, id: Uuid)
    requires id in db.notes
    ensures RoleOn(db, user, id) > 0 ==> db.notes[id].owner == user || exists k :: Matches(db, user, id, k)
  {
    if db.notes[id].owner != user {
      RoleIsStrongestGrant(db, user, id, 1);
    }
  }

  /** The limit and the owner, in literals. */
  lemma LimitAndOwnerAre(caller: Uuid, query: Query, lower: char -> char, text: RankText, n: int)
    requires Parsed(caller, query, lower, text).Ok? && 1 <= n && Int64.Holds(n)
    ensures var f := Parsed(caller, query, lower, text).value;
            && (query.limit == "" ==> f.limit == 25)
            && (query.limit == Signed(n) ==> f.limit == if n <= 100 then n else 100)
            && (query.owner == "" ==> f.owner == None)
            && (query.owner == "me" ==> f.owner == Some(caller))
  {
    LimitIsClamped(n);
    assert Decimal(n) != "";
  }
}
