/** Optimistic concurrency, one SQL statement at a time: any number of requests interleave, and
    each statement is atomic on its own (internal/notes/handler.go, internal/store/sqlcgen). */
module Versions {
  import opened Wrappers
  import opened Uuids
  import opened Schema
  import opened Sql
  import Maxima

  /** A write that some statement performed. */
  datatype Write =
    | Updated(expected: int, patch: Patch, at: int)
    | SoftDeleted(at: int)
    | Restored(at: int)

  /** Where an update request stands: about to run its statement; told that no row matched, and about
      to re-read the note; or answered. `honest` records that it names a version somebody had read,
      and `within` that the note had at least that version when the statement ran. */
  datatype Request =
    | Loaded(note: Uuid, expected: int, patch: Patch, honest: bool)
    | Lost(note: Uuid, expected: int, honest: bool, within: bool)
    | Answered

  datatype Seen = Seen(note: Uuid, version: int)

  /** A 409 reply to a request: the version that was sent and the version it reports. */
  datatype Conflict = Conflict(request: nat, note: Uuid, expected: int, honest: bool, within: bool, reported: int)

  /** The notes and the requests under way; `origin`, `log`, `seen` and `conflicts` are history. */
  datatype System = System(
    notes: map<Uuid, Note>,
    now: int,
    requests: map<nat, Request>,
    origin: map<Uuid, Note>,
    log: map<Uuid, seq<Write>>,
    seen: set<Seen>,
    conflicts: set<Conflict>
  )

  const START := System(map[], 0, map[], map[], map[], {}, {})

  /** The statements, and the replies that show somebody a version. */
  datatype Step =
    | Create(id: Uuid, owner: Uuid, title: string, body: string, tags: seq<string>)
    | Show(id: Uuid)
    | Begin(r: nat, id: Uuid, expected: int, patch: Patch)
    | RunUpdate(r: nat)
    | Reread(r: nat)
    | RunDelete(id: Uuid)
    | RunRestore(id: Uuid)

  function Recorded(s: System, id: Uuid, w: NoteWrite, entry: Write): System {
    if w.Wrote? && id in s.log then s.(notes := Written(s.notes, id, w), log := s.log[id := s.log[id] + [entry]])
    else s
  }

  function Created(s: System, id: Uuid, n: Note): System {
    if id in s.notes then s
    else s.(notes := s.notes[id := n], origin := s.origin[id := n], log := s.log[id := []])
  }

  function Shown(s: System, id: Uuid): System {
    if id in s.notes then s.(seen := s.seen + {Seen(id, s.notes[id].version)}) else s
  }

  function Begun(s: System, r: nat, id: Uuid, expected: int, patch: Patch): System {
    if r in s.requests then s
    else s.(requests := s.requests[r := Loaded(id, expected, patch, Seen(id, expected) in s.seen)])
  }

  function LostBy(s: System, q: Request): Request
    requires q.Loaded?
  {
    Lost(q.note, q.expected, q.honest, q.note in s.notes && q.expected <= s.notes[q.note].version)
  }

  function ConflictOf(s: System, r: nat, q: Request): Conflict
    requires q.Lost? && q.note in s.notes
  {
    Conflict(r, q.note, q.expected, q.honest, q.within, s.notes[q.note].version)
  }

  function UpdateRun(s: System, r: nat): System {
    if r in s.requests && s.requests[r].Loaded? then
      var q := s.requests[r];
      var w := UpdateNote(s.notes, q.note, q.expected, q.patch, s.now);
      if w.NoRow? then s.(requests := s.requests[r := LostBy(s, q)])
      else Recorded(s, q.note, w, Updated(q.expected, q.patch, s.now)).(requests := s.requests[r := Answered])
    else s
  }

  function ReadAgain(s: System, r: nat): System {
    if r in s.requests && s.requests[r].Lost? then
      var q := s.requests[r];
      var answered := s.(requests := s.requests[r := Answered]);
      if q.note !in s.notes || s.notes[q.note].deletedAt.Some? then answered
      else
        Shown(answered.(conflicts := s.conflicts + {ConflictOf(s, r, q)}), q.note)
    else s
  }

  /** Each step reads a later time than every step before it. */
  function Later(s: System): System {
    s.(now := s.now + 1)
  }

  function Next(s: System, step: Step): System {
    match step
    case Create(id, owner, title, body, tags) => Created(s, id, NewNote(owner, title, body, tags, s.now))
    case Show(id) => Shown(s, id)
    case Begin(r, id, expected, patch) => Begun(s, r, id, expected, patch)
    case RunUpdate(r) => UpdateRun(s, r)
    case Reread(r) => ReadAgain(s, r)
    case RunDelete(id) => Recorded(s, id, SoftDeleteNote(s.notes, id, s.now), SoftDeleted(s.now))
    case RunRestore(id) => Recorded(s, id, RestoreNote(s.notes, id, s.now), Restored(s.now))
  }

  function After(s: System, steps: seq<Step>): System
    decreases |steps|
  {
    if steps == [] then s else After(Next(Later(s), steps[0]), steps[1..])
  }

  /** What a write makes of the note before it. */
  function Rewritten(n: Note, w: Write): Note {
    var m := n.(version := n.version + 1, updatedAt := w.at);
    match w
    case Updated(_, p, _) =>
      m.(title := Coalesce(p.title, n.title), body := Coalesce(p.body, n.body), tags := Coalesce(p.tags, n.tags))
    case SoftDeleted(at) => m.(deletedAt := Some(at))
    case Restored(_) => m.(deletedAt := None)
  }

  function Fold(n: Note, log: seq<Write>): (m: Note)
    ensures m.version == n.version + |log|
  {
    if log == [] then n else Rewritten(Fold(n, log[..|log| - 1]), log[|log| - 1])
  }

  /** What a write needs of the note before it: an update the version it names, on a live note; a
      deletion a live note; a restoration a deleted one. */
  predicate Meets(n: Note, w: Write) {
    match w
    case Updated(expected, _, _) => n.version == expected && n.deletedAt.None?
    case SoftDeleted(_) => n.deletedAt.None?
    case Restored(_) => n.deletedAt.Some?
  }

  /** A note is its first state with the accepted writes folded over it, and each of them was applied
      to a state that met its condition. */
  ghost predicate History(s: System, id: Uuid) {
    && id in s.notes && id in s.origin && id in s.log
    && s.origin[id].version == 1
    && s.notes[id] == Fold(s.origin[id], s.log[id])
    && forall i | 0 <= i < |s.log[id]| :: Meets(Fold(s.origin[id], s.log[id][..i]), s.log[id][i])
  }

  ghost predicate RequestOk(s: System, q: Request) {
    match q
    case Loaded(id, expected, _, honest) => honest ==> id in s.notes && expected <= s.notes[id].version
    case Lost(id, expected, honest, within) =>
      && (honest ==> within)
      && (within ==>
            && id in s.notes && expected <= s.notes[id].version
            && (expected == s.notes[id].version ==> s.notes[id].deletedAt.Some?))
    case Answered => true
  }

  ghost predicate ConflictOk(s: System, c: Conflict) {
    && c.request in s.requests && s.requests[c.request].Answered?
    && (c.honest ==> c.within) && (c.within ==> c.reported > c.expected)
  }

  ghost predicate Inv(s: System) {
    && (forall id | id in s.notes :: History(s, id))
    && (forall v | v in s.seen :: v.note in s.notes && v.version <= s.notes[v.note].version)
    && (forall r | r in s.requests :: RequestOk(s, s.requests[r]))
    && (forall c | c in s.conflicts :: ConflictOk(s, c))
  }

  lemma FoldAppends(n: Note, log: seq<Write>, w: Write)
    ensures Fold(n, log + [w]) == Rewritten(Fold(n, log), w)
    ensures forall i | 0 <= i <= |log| :: (log + [w])[..i] == log[..i]
  {
    assert (log + [w])[..|log|] == log;
  }

  lemma RecordExtendsHistory(s: System, id: Uuid, w: NoteWrite, entry: Write)
    requires History(s, id) && w.Wrote? && w.note == Rewritten(s.notes[id], entry) && Meets(s.notes[id], entry)
    ensures History(Recorded(s, id, w, entry), id)
  {
    var t := Recorded(s, id, w, entry);
    FoldAppends(s.origin[id], s.log[id], entry);
    forall i | 0 <= i < |t.log[id]|
      ensures Meets(Fold(t.origin[id], t.log[id][..i]), t.log[id][i])
    {
      assert t.log[id][..i] == s.log[id][..i];
    }
  }

  lemma RecordKeepsInv(s: System, id: Uuid, w: NoteWrite, entry: Write)
    requires Inv(s)
    requires w.Wrote? ==> id in s.notes && w.note == Rewritten(s.notes[id], entry) && Meets(s.notes[id], entry)
    ensures Inv(Recorded(s, id, w, entry))
  {
    if w.Wrote? {
      var t := Recorded(s, id, w, entry);
      assert History(s, id);
      RecordExtendsHistory(s, id, w, entry);
      forall j | j in t.notes && j != id
        ensures History(t, j)
      {
        assert History(s, j);
      }
      forall r | r in t.requests
        ensures RequestOk(t, t.requests[r])
      {
        RequestStaysOk(s, id, w, entry, s.requests[r]);
      }
      assert forall c | c in t.conflicts :: ConflictOk(s, c) ==> ConflictOk(t, c);
    }
  }

  lemma RequestStaysOk(s: System, id: Uuid, w: NoteWrite, entry: Write, q: Request)
    requires RequestOk(s, q) && w.Wrote? && id in s.notes && w.note.version == s.notes[id].version + 1
    ensures RequestOk(Recorded(s, id, w, entry), q)
  {
  }

  lemma TickKeepsInv(s: System)
    requires Inv(s)
    ensures Inv(Later(s))
  {
    var d := Later(s);
    assert forall id | id in d.notes :: History(s, id) ==> History(d, id);
    assert forall r | r in d.requests :: RequestOk(s, s.requests[r]) ==> RequestOk(d, d.requests[r]);
  }

  lemma RequestKeepsInv(s: System, r: nat, q: Request)
    requires Inv(s) && RequestOk(s, q)
    requires r in s.requests && s.requests[r].Answered? ==> q.Answered?
    ensures Inv(s.(requests := s.requests[r := q]))
  {
    var t := s.(requests := s.requests[r := q]);
    assert forall id | id in t.notes :: History(s, id) ==> History(t, id);
    assert forall k | k in t.requests :: RequestOk(s, t.requests[k]) ==> RequestOk(t, t.requests[k]);
    assert forall c | c in t.conflicts :: ConflictOk(s, c) ==> ConflictOk(t, c);
  }

  lemma ShowKeepsInv(s: System, id: Uuid)
    requires Inv(s)
    ensures Inv(Shown(s, id))
  {
    var t := Shown(s, id);
    assert forall j | j in t.notes :: History(s, j) ==> History(t, j);
    assert forall k | k in t.requests :: RequestOk(s, t.requests[k]) ==> RequestOk(t, t.requests[k]);
  }

  lemma ConflictKeepsInv(s: System, c: Conflict)
    requires Inv(s) && ConflictOk(s, c)
    ensures Inv(s.(conflicts := s.conflicts + {c}))
  {
    var t := s.(conflicts := s.conflicts + {c});
    assert forall j | j in t.notes :: History(s, j) ==> History(t, j);
    assert forall k | k in t.requests :: RequestOk(s, t.requests[k]) ==> RequestOk(t, t.requests[k]);
    assert forall d | d in t.conflicts :: ConflictOk(s, d) ==> ConflictOk(t, d);
  }

  lemma CreateKeepsInv(s: System, id: Uuid, n: Note)
    requires Inv(s) && n.version == 1
    ensures Inv(Created(s, id, n))
  {
    var t := Created(s, id, n);
    forall j | j in t.notes
      ensures History(t, j)
    {
      assert j in s.notes ==> History(s, j);
    }
    assert forall k | k in t.requests :: RequestOk(s, t.requests[k]) ==> RequestOk(t, t.requests[k]);
  }

  lemma BeginKeepsInv(s: System, r: nat, id: Uuid, expected: int, patch: Patch)
    requires Inv(s)
    ensures Inv(Begun(s, r, id, expected, patch))
  {
    if r !in s.requests {
      RequestKeepsInv(s, r, Loaded(id, expected, patch, Seen(id, expected) in s.seen));
    }
  }

  lemma UpdateKeepsInv(s: System, r: nat)
    requires Inv(s)
    ensures Inv(UpdateRun(s, r))
  {
    if r in s.requests && s.requests[r].Loaded? {
      var q := s.requests[r];
      assert RequestOk(s, q);
      var w := UpdateNote(s.notes, q.note, q.expected, q.patch, s.now);
      if w.NoRow? {
        RequestKeepsInv(s, r, LostBy(s, q));
      } else {
        var entry := Updated(q.expected, q.patch, s.now);
        RecordKeepsInv(s, q.note, w, entry);
        RequestKeepsInv(Recorded(s, q.note, w, entry), r, Answered);
      }
    }
  }

  lemma RereadKeepsInv(s: System, r: nat)
    requires Inv(s)
    ensures Inv(ReadAgain(s, r))
  {
    if r in s.requests && s.requests[r].Lost? {
      var q := s.requests[r];
      assert RequestOk(s, q);
      RequestKeepsInv(s, r, Answered);
      if q.note in s.notes && s.notes[q.note].deletedAt.None? {
        var c := ConflictOf(s, r, q);
        var answered := s.(requests := s.requests[r := Answered]);
        ConflictKeepsInv(answered, c);
        ShowKeepsInv(answered.(conflicts := answered.conflicts + {c}), q.note);
      }
    }
  }

  lemma DeleteKeepsInv(s: System, id: Uuid)
    requires Inv(s)
    ensures Inv(Recorded(s, id, SoftDeleteNote(s.notes, id, s.now), SoftDeleted(s.now)))
  {
    RecordKeepsInv(s, id, SoftDeleteNote(s.notes, id, s.now), SoftDeleted(s.now));
  }

  lemma RestoreKeepsInv(s: System, id: Uuid)
    requires Inv(s)
    ensures Inv(Recorded(s, id, RestoreNote(s.notes, id, s.now), Restored(s.now)))
  {
    RecordKeepsInv(s, id, RestoreNote(s.notes, id, s.now), Restored(s.now));
  }

  lemma NextKeepsInv(d: System, step: Step)
    requires Inv(d)
    ensures Inv(Next(d, step))
  {
    match step
    case Create(id, owner, title, body, tags) => CreateKeepsInv(d, id, NewNote(owner, title, body, tags, d.now));
    case Show(id) => ShowKeepsInv(d, id);
    case Begin(r, id, expected, patch) => BeginKeepsInv(d, r, id, expected, patch);
    case RunUpdate(r) => UpdateKeepsInv(d, r);
    case Reread(r) => RereadKeepsInv(d, r);
    case RunDelete(id) => DeleteKeepsInv(d, id);
    case RunRestore(id) => RestoreKeepsInv(d, id);
  }

  lemma {:induction false} RunKeepsInv(s: System, steps: seq<Step>)
    requires Inv(s)
    ensures Inv(After(s, steps))
    decreases |steps|
  {
    if steps != [] {
      TickKeepsInv(s);
      NextKeepsInv(Later(s), steps[0]);
      RunKeepsInv(Next(Later(s), steps[0]), steps[1..]);
    }
  }

  /** In every interleaving a note is the fold of the accepted writes, its version counts them, of the
      updates that name one version at most one is accepted, none is applied to a deleted note, and
      deletions and restorations take turns. */
  lemma NoLostUpdates(steps: seq<Step>, id: Uuid)
    requires id in After(START, steps).notes
    ensures var s := After(START, steps);
            && id in s.origin && id in s.log
            && var log := s.log[id];
            && s.notes[id] == Fold(s.origin[id], log)
            && s.notes[id].version == 1 + |log|
            && (forall i | 0 <= i < |log| && log[i].Updated? :: log[i].expected == i + 1)
            && (forall i, j | 0 <= i < |log| && 0 <= j < |log| && log[i].Updated? && log[j].Updated?
                && log[i].expected == log[j].expected :: i == j)
            && (forall i | 0 <= i < |log| ::
                  Fold(s.origin[id], log[..i]).deletedAt.Some? <==> log[i].Restored?)
  {
    RunKeepsInv(START, steps);
    assert History(After(START, steps), id);
  }

  /** Either nothing happened to the note, or one write did whose condition it met, and it is logged. */
  ghost predicate OneWriteAtMost(s: System, t: System, id: Uuid) {
    && id in s.notes && id in s.log && id in t.notes && id in t.log
    && (|| (t.notes[id] == s.notes[id] && t.log[id] == s.log[id])
        || (&& t.notes[id].version == s.notes[id].version + 1
            && exists w ::
                 t.log[id] == s.log[id] + [w] && t.notes[id] == Rewritten(s.notes[id], w) && Meets(s.notes[id], w)))
  }

  lemma RecordWritesOnce(s: System, k: Uuid, w: NoteWrite, entry: Write, id: Uuid)
    requires id in s.notes && id in s.log
    requires w.Wrote? ==> k in s.notes && w.note == Rewritten(s.notes[k], entry) && Meets(s.notes[k], entry)
    ensures OneWriteAtMost(s, Recorded(s, k, w, entry), id)
  {
  }

  /** Each statement, whoever runs it, writes a note at most once, raises its version by exactly one
      and is the only one to produce that version. */
  lemma EachWriteIsLogged(s: System, step: Step, id: Uuid)
    requires id in s.notes && id in s.log
    ensures OneWriteAtMost(s, Next(s, step), id)
  {
    match step
    case RunUpdate(r) =>
      if r in s.requests && s.requests[r].Loaded? {
        var q := s.requests[r];
        var w := UpdateNote(s.notes, q.note, q.expected, q.patch, s.now);
        RecordWritesOnce(s, q.note, w, Updated(q.expected, q.patch, s.now), id);
      }
    case RunDelete(k) => RecordWritesOnce(s, k, SoftDeleteNote(s.notes, k, s.now), SoftDeleted(s.now), id);
    case RunRestore(k) => RecordWritesOnce(s, k, RestoreNote(s.notes, k, s.now), Restored(s.now), id);
    case _ =>
  }

  /** Every 409 to a request that named a version somebody had read reports a larger one, whatever
      was written between its update and its re-read. */
  lemma ConflictReportsProgress(steps: seq<Step>, c: Conflict)
    requires c in After(START, steps).conflicts && c.honest
    ensures c.reported > c.expected
  {
    RunKeepsInv(START, steps);
    assert ConflictOk(After(START, steps), c);
  }

  /** What follows a request whose statement ran while the note had at least the version it named. */
  ghost predicate RanWithin(s: System, r: nat) {
    && r in s.requests && !s.requests[r].Loaded? && (s.requests[r].Lost? ==> s.requests[r].within)
    && forall c | c in s.conflicts && c.request == r :: c.within
  }

  lemma StepKeepsWithin(s: System, step: Step, r: nat)
    requires RanWithin(s, r)
    ensures RanWithin(Next(s, step), r)
  {
  }

  lemma {:induction false} RunKeepsWithin(s: System, steps: seq<Step>, r: nat)
    requires RanWithin(s, r)
    ensures RanWithin(After(s, steps), r)
    decreases |steps|
  {
    if steps != [] {
      assert RanWithin(Later(s), r);
      StepKeepsWithin(Later(s), steps[0], r);
      RunKeepsWithin(Next(Later(s), steps[0]), steps[1..], r);
    }
  }

  lemma FreshRequest(s: System) returns (k: nat)
    ensures k !in s.requests
  {
    if s.requests.Keys == {} {
      k := 0;
    } else {
      var m := Maxima.Greatest(s.requests.Keys);
      k := m + 1;
    }
  }

  const NO_CHANGE := Patch(None, None, None)

  /** One more update, by somebody who names the current version. */
  lemma Bump(s: System, id: Uuid, r: nat) returns (steps: seq<Step>)
    requires Inv(s) && id in s.notes && s.notes[id].deletedAt.None? && s.notes[id].version < MAX_VERSION
            && r in s.requests
    ensures var u := After(s, steps);
            && Inv(u) && id in u.notes && u.notes[id].deletedAt.None? && u.notes[id].version == s.notes[id].version + 1
            && r in u.requests && u.requests[r] == s.requests[r]
  {
    var k := FreshRequest(s);
    var begin := Begin(k, id, s.notes[id].version, NO_CHANGE);
    assert History(s, id);
    steps := [begin, RunUpdate(k)];
    var mid := Next(Later(s), begin);
    assert steps == [begin] + ([RunUpdate(k)] + []);
    AfterOne(s, begin, [RunUpdate(k)] + []);
    AfterOne(mid, RunUpdate(k), []);
    UpdateNamedIsRun(Later(mid), k, id);
    RunKeepsInv(s, steps);
  }

  /** An update that names the current version of a live note is written. */
  lemma UpdateNamedIsRun(s: System, k: nat, id: Uuid)
    requires id in s.notes && id in s.log && s.notes[id].deletedAt.None? && s.notes[id].version < MAX_VERSION
    requires k in s.requests && s.requests[k].Loaded? && s.requests[k].note == id
            && s.requests[k].expected == s.notes[id].version
    ensures var u := UpdateRun(s, k);
            && id in u.notes && u.notes[id].deletedAt.None? && u.notes[id].version == s.notes[id].version + 1
            && u.requests == s.requests[k := Answered]
  {
  }

  lemma {:induction false} AfterBoth(s: System, a: seq<Step>, b: seq<Step>)
    ensures After(s, a + b) == After(After(s, a), b)
    decreases |a|
  {
    if a == [] {
      assert a + b == b;
    } else {
      assert (a + b)[1..] == a[1..] + b;
      AfterBoth(Next(Later(s), a[0]), a[1..], b);
    }
  }

  /** Others can bring a live note to any later version while a request waits. */
  lemma {:induction false} Climb(s: System, id: Uuid, r: nat, target: int) returns (steps: seq<Step>)
    requires Inv(s) && id in s.notes && s.notes[id].deletedAt.None? && r in s.requests
    requires s.notes[id].version <= target <= MAX_VERSION
    ensures var u := After(s, steps);
            && id in u.notes && u.notes[id].deletedAt.None? && u.notes[id].version == target
            && r in u.requests && u.requests[r] == s.requests[r]
    decreases target - s.notes[id].version
  {
    if s.notes[id].version == target {
      steps := [];
    } else {
      var first := Bump(s, id, r);
      var rest := Climb(After(s, first), id, r, target);
      AfterBoth(s, first, rest);
      steps := first + rest;
    }
  }

  lemma Revive(s: System, id: Uuid, r: nat) returns (steps: seq<Step>)
    requires Inv(s) && id in s.notes && s.notes[id].version < MAX_VERSION && r in s.requests
    ensures var u := After(s, steps);
            && Inv(u) && id in u.notes && u.notes[id].deletedAt.None?
            && s.notes[id].version <= u.notes[id].version <= s.notes[id].version + 1
            && r in u.requests && u.requests[r] == s.requests[r]
  {
    assert History(s, id);
    if s.notes[id].deletedAt.None? {
      steps := [];
    } else {
      steps := [RunRestore(id)];
      AfterOne(s, RunRestore(id), []);
      assert [RunRestore(id)] + [] == steps;
      RunKeepsInv(s, steps);
    }
  }

  /** A request that lost although it named a version the note had not reached can be told that very
      version. */
  lemma NamedVersionIsReported(s: System, r: nat) returns (steps: seq<Step>, c: Conflict)
    requires Inv(s) && r in s.requests && s.requests[r].Lost?
    requires s.requests[r].note in s.notes
            && s.notes[s.requests[r].note].version < s.requests[r].expected <= MAX_VERSION
    ensures c in After(s, steps).conflicts && c.request == r && c.reported == c.expected == s.requests[r].expected
  {
    var q := s.requests[r];
    var first := Revive(s, q.note, r);
    var mid := After(s, first);
    var rest := Climb(mid, q.note, r, q.expected);
    var u := After(mid, rest);
    AfterBoth(s, first, rest);
    AfterBoth(s, first + rest, [Reread(r)]);
    assert [Reread(r)] == [Reread(r)] + [];
    AfterOne(u, Reread(r), []);
    c := ConflictOf(Later(u), r, q);
    steps := first + rest + [Reread(r)];
  }

  /** Exactly when a 409 is sure to report a larger version, whatever others do before the note is
      read again: if the note had at least the version named when the update ran. */
  lemma ConflictIsLargerWhen(s: System, r: nat)
    requires Inv(s) && r in s.requests && s.requests[r].Loaded?
    requires s.requests[r].note in s.notes && s.requests[r].expected <= MAX_VERSION
    ensures var q, u := s.requests[r], Next(Later(s), RunUpdate(r));
            (forall steps, c | c in After(u, steps).conflicts && c.request == r :: c.reported > c.expected)
            <==> q.expected <= s.notes[q.note].version
  {
    var q, u := s.requests[r], Next(Later(s), RunUpdate(r));
    TickKeepsInv(s);
    NextKeepsInv(Later(s), RunUpdate(r));
    assert forall c | c in s.conflicts :: ConflictOk(s, c);
    if q.expected <= s.notes[q.note].version {
      assert RanWithin(u, r);
      forall steps, c | c in After(u, steps).conflicts && c.request == r
        ensures c.reported > c.expected
      {
        RunKeepsWithin(u, steps, r);
        RunKeepsInv(u, steps);
        assert ConflictOk(After(u, steps), c);
      }
    } else {
      var steps, c := NamedVersionIsReported(u, r);
      assert c in After(u, steps).conflicts && c.request == r && c.reported <= c.expected;
    }
  }

  /** A version that somebody had read is one the note has reached, so every 409 about it reports a
      larger one. */
  lemma ReadVersionIsSurpassed(first: seq<Step>, r: nat)
    requires var s := After(START, first);
             r in s.requests && s.requests[r].Loaded? && s.requests[r].honest && s.requests[r].expected <= MAX_VERSION
    ensures var u := Next(Later(After(START, first)), RunUpdate(r));
            forall steps, c | c in After(u, steps).conflicts && c.request == r :: c.reported > c.expected
  {
    RunKeepsInv(START, first);
    var s := After(START, first);
    assert RequestOk(s, s.requests[r]);
    ConflictIsLargerWhen(s, r);
  }

  /** Sent back at once, the reported version meets the condition of the update. */
  lemma ReportedVersionIsCurrent(s: System, r: nat, patch: Patch, t: int)
    requires r in s.requests && s.requests[r].Lost?
    requires var q := s.requests[r]; q.note in s.notes && s.notes[q.note].deletedAt.None?
    ensures var id := s.requests[r].note;
            var after := Next(s, Reread(r));
            exists c :: c in after.conflicts && c.note == id && c.expected == s.requests[r].expected
              && !UpdateNote(after.notes, id, c.reported, patch, t).NoRow?
  {
    var q := s.requests[r];
    assert ConflictOf(s, r, q) in Next(s, Reread(r)).conflicts;
  }

  /** A version nobody had read yet can be refused and then reported as current. */
  lemma UnreadVersionMayBeReported(id: Uuid, owner: Uuid, p: Patch)
    ensures var steps := [Create(id, owner, "t", "", []), Begin(0, id, 2, p), RunUpdate(0),
                          Begin(1, id, 1, p), RunUpdate(1), Reread(0)];
            Conflict(0, id, 2, false, false, 2) in After(START, steps).conflicts
  {
    var s1 := Next(Later(START), Create(id, owner, "t", "", []));
    var s2 := Next(Later(s1), Begin(0, id, 2, p));
    var s3 := Next(Later(s2), RunUpdate(0));
    var s4 := Next(Later(s3), Begin(1, id, 1, p));
    var s5 := Next(Later(s4), RunUpdate(1));
    var s6 := Next(Later(s5), Reread(0));
    assert Conflict(0, id, 2, false, false, 2) in s6.conflicts;
    AfterSix(START, Create(id, owner, "t", "", []), Begin(0, id, 2, p), RunUpdate(0), Begin(1, id, 1, p),
        RunUpdate(1), Reread(0));
  }

  lemma AfterOne(s: System, a: Step, rest: seq<Step>)
    ensures After(s, [a] + rest) == After(Next(Later(s), a), rest)
  {
    assert ([a] + rest)[1..] == rest;
  }

  lemma AfterSix(s: System, a: Step, b: Step, c: Step, d: Step, e: Step, f: Step)
    ensures var s1 := Next(Later(s), a);
            var s2 := Next(Later(s1), b);
            var s3 := Next(Later(s2), c);
            var s4 := Next(Later(s3), d);
            var s5 := Next(Later(s4), e);
            After(s, [a, b, c, d, e, f]) == Next(Later(s5), f)
  {
    var s1 := Next(Later(s), a);
    var s2 := Next(Later(s1), b);
    var s3 := Next(Later(s2), c);
    var s4 := Next(Later(s3), d);
    var s5 := Next(Later(s4), e);
    assert [a, b, c, d, e, f] == [a] + ([b] + ([c] + ([d] + ([e] + ([f] + [])))));
    AfterOne(s, a, [b] + ([c] + ([d] + ([e] + ([f] + [])))));
    AfterOne(s1, b, [c] + ([d] + ([e] + ([f] + []))));
    AfterOne(s2, c, [d] + ([e] + ([f] + [])));
    AfterOne(s3, d, [e] + ([f] + []));
    AfterOne(s4, e, [f] + []);
    AfterOne(s5, f, []);
  }
}
