/** The life of an attachment, one statement or object-store call at a time: any number of
    completions, deletions and sweeps interleave (internal/notes/attachments.go,
    internal/store/sqlcgen/attachments.sql.go, cmd/sweep/main.go). */
module Uploads {
  import opened Wrappers
  import opened Uuids
  import opened Schema
  import opened Sql
  import opened Attachments

  datatype Listing = Listing(id: Uuid, key: string)

  /** Where a request or a sweep stands between two calls. */
  datatype Task =
    | Completing(id: Uuid, key: string)
    | Verified(id: Uuid, info: ObjectInfo)
    | Oversized(key: string)
    | Discarding(key: string)
    | Sweeping(left: seq<Listing>)
    | SweepingRow(left: seq<Listing>)
    | Finished

  /** Rows, objects and tasks; `used` holds every id ever given out, and `verified` and `completer`
      record what each completion statted and which one made a row ready. */
  datatype System = System(
    rows: map<Uuid, Attachment>,
    objects: map<string, ObjectInfo>,
    now: int,
    tasks: map<nat, Task>,
    used: set<Uuid>,
    verified: map<nat, ObjectInfo>,
    completer: map<Uuid, nat>
  )

  const START := System(map[], map[], 0, map[], {}, map[], map[])

  datatype Step =
    | Insert(id: Uuid, row: Attachment)
    | Put(key: string, info: ObjectInfo)
    | LoadPending(t: nat, id: Uuid)
    | Stat(t: nat)
    | DropOversized(t: nat)
    | MarkReady(t: nat)
    | DeleteRow(t: nat, id: Uuid)
    | DeleteObject(t: nat)
    | ListStale(t: nat, listed: seq<Listing>)
    | SweepObject(t: nat)
    | SweepRow(t: nat)
    | SkipRow(t: nat)
    | Abandon(t: nat)

  function Free(s: System, t: nat, task: Task): System {
    if t in s.tasks then s else s.(tasks := s.tasks[t := task])
  }

  function Moved(s: System, t: nat, task: Task): System {
    s.(tasks := s.tasks[t := task])
  }

  /** Insertion obeys the schema and the checks of `createAttachment`; ids are never given out twice. */
  function Inserted(maxBytes: int, s: System, id: Uuid, row: Attachment): System {
    if id in s.used || KeyTaken(s.rows, row.objectKey) || row.size <= 0 || row.size > maxBytes || !row.status.Pending?
    then s
    else s.(rows := s.rows[id := row], used := s.used + {id})
  }

  function Statted(maxBytes: int, s: System, t: nat): System
    requires t in s.tasks
  {
    match s.tasks[t]
    case Completing(id, key) =>
      if key !in s.objects then Moved(s, t, Finished)
      else if s.objects[key].size > maxBytes then Moved(s, t, Oversized(key))
      else Moved(s, t, Verified(id, s.objects[key])).(verified := s.verified[t := s.objects[key]])
    case _ => s
  }

  /** `MarkAttachmentReady`: conditional on the row still being pending, with the size check of the schema. */
  function Marked(s: System, t: nat): System
    requires t in s.tasks
  {
    match s.tasks[t]
    case Verified(id, info) =>
      var done := Moved(s, t, Finished);
      if id in s.rows && s.rows[id].status.Pending? && info.size > 0 then
        done.(rows := s.rows[id := Completed(s.rows[id], info.size, info.etag, s.now)],
            completer := s.completer[id := t])
      else done
    case _ => s
  }

  function WithoutObject(s: System, key: string): System {
    s.(objects := s.objects - {key})
  }

  /** The sweep deletes the object first, and then the row by its id alone. */
  function Swept(s: System, t: nat): System
    requires t in s.tasks
  {
    match s.tasks[t]
    case Sweeping(left) =>
      if left == [] then Moved(s, t, Finished) else WithoutObject(Moved(s, t, SweepingRow(left)), left[0].key)
    case _ => s
  }

  function SweptRow(s: System, t: nat): System
    requires t in s.tasks
  {
    match s.tasks[t]
    case SweepingRow(left) =>
      if left == [] then Moved(s, t, Finished)
      else Moved(s, t, Sweeping(left[1..])).(rows := s.rows - {left[0].id})
    case _ => s
  }

  /** A row whose object or row could not be deleted is left for the next run. */
  function Skipped(s: System, t: nat): System
    requires t in s.tasks
  {
    match s.tasks[t]
    case Sweeping(left) => Moved(s, t, if left == [] then Finished else Sweeping(left[1..]))
    case SweepingRow(left) => Moved(s, t, if left == [] then Finished else Sweeping(left[1..]))
    case _ => s
  }

  function Later(s: System): System {
    s.(now := s.now + 1)
  }

  /** A call that fails leaves things as they are; its request ends, or its sweep goes on. */
  function Next(maxBytes: int, s: System, step: Step): System {
    match step
    case Insert(id, row) => Inserted(maxBytes, s, id, row)
    case Put(key, info) => s.(objects := s.objects[key := info])
    case LoadPending(t, id) =>
      if id in s.rows && s.rows[id].status.Pending? then Free(s, t, Completing(id, s.rows[id].objectKey)) else s
    case Stat(t) => if t in s.tasks then Statted(maxBytes, s, t) else s
    case DropOversized(t) =>
      if t in s.tasks && s.tasks[t].Oversized? then WithoutObject(Moved(s, t, Finished), s.tasks[t].key) else s
    case MarkReady(t) => if t in s.tasks then Marked(s, t) else s
    case DeleteRow(t, id) =>
      if id in s.rows && t !in s.tasks then Moved(s, t, Discarding(s.rows[id].objectKey)).(rows := s.rows - {id}) else s
    case DeleteObject(t) =>
      if t in s.tasks && s.tasks[t].Discarding? then WithoutObject(Moved(s, t, Finished), s.tasks[t].key) else s
    case ListStale(t, listed) =>
      if forall i | 0 <= i < |listed| :: Pending(s, listed[i]) then Free(s, t, Sweeping(listed)) else s
    case SweepObject(t) => if t in s.tasks then Swept(s, t) else s
    case SweepRow(t) => if t in s.tasks then SweptRow(s, t) else s
    case SkipRow(t) => if t in s.tasks then Skipped(s, t) else s
    case Abandon(t) => if t in s.tasks then Moved(s, t, Finished) else s
  }

  predicate Pending(s: System, l: Listing) {
    l.id in s.rows && s.rows[l.id].status.Pending? && s.rows[l.id].objectKey == l.key
  }

  function After(maxBytes: int, s: System, steps: seq<Step>): System
    decreases |steps|
  {
    if steps == [] then s else After(maxBytes, Next(maxBytes, Later(s), steps[0]), steps[1..])
  }

  /** A ready row holds what the request that completed it had statted. */
  ghost predicate RowOk(maxBytes: int, s: System, id: Uuid)
    requires id in s.rows
  {
    && id in s.used
    && 0 < s.rows[id].size <= maxBytes
    && (s.rows[id].status.Ready? ==>
          && id in s.completer && s.completer[id] in s.verified && s.completer[id] in s.tasks
          && s.tasks[s.completer[id]] == Finished
          && s.rows[id].size == s.verified[s.completer[id]].size
          && s.rows[id].checksum == Some(s.verified[s.completer[id]].etag))
  }

  ghost predicate TaskOk(maxBytes: int, s: System, t: nat)
    requires t in s.tasks
  {
    s.tasks[t].Verified? ==> t in s.verified && s.verified[t] == s.tasks[t].info && s.tasks[t].info.size <= maxBytes
  }

  ghost predicate Inv(maxBytes: int, s: System) {
    && (forall id | id in s.rows :: RowOk(maxBytes, s, id))
    && (forall t | t in s.tasks :: TaskOk(maxBytes, s, t))
    && (forall t | t in s.verified :: t in s.tasks)
  }

  /** What never changes back: a ready row is fixed, a pending one keeps its note and its key, and
      an id that is gone stays gone. */
  ghost predicate Onward(a: System, b: System) {
    && a.used <= b.used
    && (forall id | id in a.used && id !in a.rows :: id !in b.rows)
    && (forall id | id in a.rows && id in b.rows ::
          if a.rows[id].status.Ready? then b.rows[id] == a.rows[id]
          else b.rows[id] == a.rows[id] || CompletedFrom(a.rows[id], b.rows[id]))
  }

  /** The one change a row goes through. */
  ghost predicate CompletedFrom(a: Attachment, b: Attachment) {
    a.status.Pending? && exists size, checksum, at :: b == Completed(a, size, checksum, at)
  }

  /** Rows at most disappear, tasks end or go on to something that is no verified upload. */
  ghost predicate MovesOn(s: System, u: System) {
    && u.used == s.used && u.verified == s.verified && u.completer == s.completer
    && (forall id | id in u.rows :: id in s.rows && u.rows[id] == s.rows[id])
    && (forall t | t in s.tasks ::
          && t in u.tasks
          && (u.tasks[t] == s.tasks[t] || u.tasks[t] == Finished || (s.tasks[t] != Finished && !u.tasks[t].Verified?)))
    && (forall t | t in u.tasks && t !in s.tasks :: !u.tasks[t].Verified?)
  }

  lemma SweepStepsMoveOn(maxBytes: int, s: System, step: Step)
    requires step.SweepObject? || step.SkipRow?
    ensures MovesOn(s, Next(maxBytes, s, step))
  {
  }

  lemma SweepRowMovesOn(maxBytes: int, s: System, t: nat)
    ensures MovesOn(s, Next(maxBytes, s, SweepRow(t)))
  {
  }

  lemma FileStepsMoveOn(maxBytes: int, s: System, step: Step)
    requires step.Put? || step.DropOversized? || step.DeleteRow? || step.DeleteObject?
    ensures MovesOn(s, Next(maxBytes, s, step))
  {
  }

  lemma OtherStepsMoveOn(maxBytes: int, s: System, step: Step)
    requires !step.Insert? && !step.Stat? && !step.MarkReady?
    ensures MovesOn(s, Next(maxBytes, s, step))
  {
    if step.SweepObject? || step.SkipRow? {
      SweepStepsMoveOn(maxBytes, s, step);
    } else if step.SweepRow? {
      SweepRowMovesOn(maxBytes, s, step.t);
    } else if step.Put? || step.DropOversized? || step.DeleteRow? || step.DeleteObject? {
      FileStepsMoveOn(maxBytes, s, step);
    }
  }

  lemma MovingOnKeepsInv(maxBytes: int, s: System, u: System)
    requires Inv(maxBytes, s) && MovesOn(s, u)
    ensures Inv(maxBytes, u)
  {
    forall id | id in u.rows
      ensures RowOk(maxBytes, u, id)
    {
      assert RowOk(maxBytes, s, id);
    }
    forall t | t in u.tasks
      ensures TaskOk(maxBytes, u, t)
    {
      if t in s.tasks {
        assert TaskOk(maxBytes, s, t);
      }
    }
  }

  lemma InsertKeepsInv(maxBytes: int, s: System, id: Uuid, row: Attachment)
    requires Inv(maxBytes, s)
    ensures Inv(maxBytes, Inserted(maxBytes, s, id, row))
  {
    var u := Inserted(maxBytes, s, id, row);
    forall i | i in u.rows
      ensures RowOk(maxBytes, u, i)
    {
      assert i in s.rows ==> RowOk(maxBytes, s, i);
    }
    assert forall t | t in u.tasks :: TaskOk(maxBytes, s, t) ==> TaskOk(maxBytes, u, t);
  }

  lemma StatKeepsInv(maxBytes: int, s: System, t: nat)
    requires Inv(maxBytes, s) && t in s.tasks
    ensures Inv(maxBytes, Statted(maxBytes, s, t))
  {
    var u := Statted(maxBytes, s, t);
    forall id | id in u.rows
      ensures RowOk(maxBytes, u, id)
    {
      assert RowOk(maxBytes, s, id);
    }
    forall k | k in u.tasks
      ensures TaskOk(maxBytes, u, k)
    {
      assert TaskOk(maxBytes, s, k);
    }
  }

  lemma MarkKeepsInv(maxBytes: int, s: System, t: nat)
    requires Inv(maxBytes, s) && t in s.tasks
    ensures Inv(maxBytes, Marked(s, t))
  {
    var u := Marked(s, t);
    assert TaskOk(maxBytes, s, t);
    forall id | id in u.rows
      ensures RowOk(maxBytes, u, id)
    {
      assert RowOk(maxBytes, s, id);
    }
    forall k | k in u.tasks
      ensures TaskOk(maxBytes, u, k)
    {
      assert TaskOk(maxBytes, s, k);
    }
  }

  lemma NextKeepsInv(maxBytes: int, s: System, step: Step)
    requires Inv(maxBytes, s)
    ensures Inv(maxBytes, Next(maxBytes, s, step))
  {
    match step
    case Insert(id, row) => InsertKeepsInv(maxBytes, s, id, row);
    case Stat(t) =>
      if t in s.tasks {
        StatKeepsInv(maxBytes, s, t);
      }
    case MarkReady(t) =>
      if t in s.tasks {
        MarkKeepsInv(maxBytes, s, t);
      }
    case _ =>
      OtherStepsMoveOn(maxBytes, s, step);
      MovingOnKeepsInv(maxBytes, s, Next(maxBytes, s, step));
  }

  lemma NextIsOnward(maxBytes: int, s: System, step: Step)
    requires Inv(maxBytes, s)
    ensures Onward(s, Next(maxBytes, s, step))
  {
    assert forall id | id in s.rows :: RowOk(maxBytes, s, id);
    if !step.Insert? && !step.Stat? && !step.MarkReady? {
      OtherStepsMoveOn(maxBytes, s, step);
    }
  }

  lemma OnwardChains(a: System, b: System, c: System)
    requires Onward(a, b) && Onward(b, c) && (forall id | id in a.rows :: id in a.used)
    ensures Onward(a, c)
  {
    assert forall id | id in a.rows && id in c.rows :: id in b.rows;
  }

  lemma {:induction false} RunIsOnward(maxBytes: int, s: System, steps: seq<Step>)
    requires Inv(maxBytes, s)
    ensures Inv(maxBytes, After(maxBytes, s, steps)) && Onward(s, After(maxBytes, s, steps))
    decreases |steps|
  {
    if steps != [] {
      var d := Later(s);
      MovingOnKeepsInv(maxBytes, s, d);
      var next := Next(maxBytes, d, steps[0]);
      NextKeepsInv(maxBytes, d, steps[0]);
      NextIsOnward(maxBytes, d, steps[0]);
      RunIsOnward(maxBytes, next, steps[1..]);
      assert forall id | id in d.rows :: RowOk(maxBytes, d, id);
      OnwardChains(d, next, After(maxBytes, s, steps));
    }
  }

  /** At any two moments of any interleaving, an attachment has at most gone from pending to ready,
      or away for good; its size is within the limit, and once ready is what its completion statted. */
  lemma UploadsOnlyMoveOn(maxBytes: int, first: seq<Step>, later: seq<Step>)
    ensures var a := After(maxBytes, START, first);
            var b := After(maxBytes, a, later);
            Inv(maxBytes, a) && Inv(maxBytes, b) && Onward(a, b)
  {
    RunIsOnward(maxBytes, START, first);
    RunIsOnward(maxBytes, After(maxBytes, START, first), later);
  }

  /** The task may still delete the object under the key: it was loaded, statted or listed while the
      key's row was pending, or its row is already gone. */
  predicate HoldsKey(task: Task, key: string) {
    match task
    case Completing(_, k) => k == key
    case Oversized(k) => k == key
    case Discarding(k) => k == key
    case Sweeping(left) => exists i :: 0 <= i < |left| && left[i].key == key
    case SweepingRow(left) => exists i :: 1 <= i < |left| && left[i].key == key
    case _ => false
  }

  predicate NobodyHolds(s: System, key: string) {
    forall t | t in s.tasks :: !HoldsKey(s.tasks[t], key)
  }

  /** Object keys are unique, as the index on them has it. */
  predicate KeysDistinct(rows: map<Uuid, Attachment>) {
    forall a, b | a in rows && b in rows && a != b :: rows[a].objectKey != rows[b].objectKey
  }

  /** A ready row, its object stored, and no task that holds its key. */
  ghost predicate SafeObject(s: System, id: Uuid, key: string) {
    && KeysDistinct(s.rows) && id in s.rows && s.rows[id].status.Ready? && s.rows[id].objectKey == key
    && key in s.objects && NobodyHolds(s, key)
  }

  /** Keys stay distinct in every interleaving. */
  lemma KeysStayDistinct(maxBytes: int, s: System, step: Step)
    requires KeysDistinct(s.rows)
    ensures KeysDistinct(Next(maxBytes, s, step).rows)
  {
    if !step.Insert? && !step.Stat? && !step.MarkReady? {
      OtherStepsMoveOn(maxBytes, s, step);
    }
  }

  lemma TailHoldsLess(left: seq<Listing>, key: string)
    requires left != [] && !HoldsKey(Sweeping(left[1..]), key)
    ensures !HoldsKey(SweepingRow(left), key)
  {
    assert forall i | 1 <= i < |left| :: left[i] == left[1..][i - 1];
  }

  lemma TailHoldsNothing(left: seq<Listing>, key: string)
    requires left != [] && (!HoldsKey(Sweeping(left), key) || !HoldsKey(SweepingRow(left), key))
    ensures !HoldsKey(Sweeping(left[1..]), key)
  {
    assert forall i | 0 <= i < |left[1..]| :: left[1..][i] == left[i + 1];
  }

  /** Only the task that runs changes. */
  lemma OneTaskMoves(s: System, u: System, t: nat, key: string)
    requires NobodyHolds(s, key) && t in u.tasks && !HoldsKey(u.tasks[t], key)
    requires forall k | k in u.tasks && k != t :: k in s.tasks && u.tasks[k] == s.tasks[k]
    ensures NobodyHolds(u, key)
  {
  }

  lemma SweptKeepsSafe(s: System, t: nat, key: string)
    requires NobodyHolds(s, key) && key in s.objects && t in s.tasks
    ensures key in Swept(s, t).objects && NobodyHolds(Swept(s, t), key)
  {
    var task := s.tasks[t];
    assert !HoldsKey(task, key);
    if task.Sweeping? && task.left != [] {
      assert task.left[0].key != key;
      TailHoldsNothing(task.left, key);
      TailHoldsLess(task.left, key);
    }
    OneTaskMoves(s, Swept(s, t), t, key);
  }

  lemma SweptRowKeepsSafe(s: System, t: nat, key: string)
    requires NobodyHolds(s, key) && t in s.tasks
    ensures SweptRow(s, t).objects == s.objects && NobodyHolds(SweptRow(s, t), key)
  {
    var task := s.tasks[t];
    assert !HoldsKey(task, key);
    if task.SweepingRow? && task.left != [] {
      TailHoldsNothing(task.left, key);
    }
    OneTaskMoves(s, SweptRow(s, t), t, key);
  }

  lemma SkippedKeepsSafe(s: System, t: nat, key: string)
    requires NobodyHolds(s, key) && t in s.tasks
    ensures Skipped(s, t).objects == s.objects && NobodyHolds(Skipped(s, t), key)
  {
    var task := s.tasks[t];
    assert !HoldsKey(task, key);
    if (task.Sweeping? || task.SweepingRow?) && task.left != [] {
      TailHoldsNothing(task.left, key);
    }
    OneTaskMoves(s, Skipped(s, t), t, key);
  }

  predicate StartsTask(step: Step) {
    step.LoadPending? || step.ListStale? || step.DeleteRow?
  }

  predicate EndsTask(step: Step) {
    step.DropOversized? || step.DeleteObject? || step.Abandon?
  }

  predicate SweepsOn(step: Step) {
    step.SweepObject? || step.SweepRow? || step.SkipRow?
  }

  /** Whatever is loaded or listed is pending, or about to go: it has another key. */
  lemma StartKeepsSafe(maxBytes: int, s: System, step: Step, id: Uuid, key: string)
    requires SafeObject(s, id, key) && StartsTask(step) && id in Next(maxBytes, s, step).rows
    ensures key in Next(maxBytes, s, step).objects && NobodyHolds(Next(maxBytes, s, step), key)
  {
    var u := Next(maxBytes, s, step);
    if u != s {
      if step.ListStale? {
        assert forall i | 0 <= i < |step.listed| :: Pending(s, step.listed[i]);
      }
      OneTaskMoves(s, u, step.t, key);
    }
  }

  lemma EndKeepsSafe(maxBytes: int, s: System, step: Step, id: Uuid, key: string)
    requires SafeObject(s, id, key) && EndsTask(step)
    ensures key in Next(maxBytes, s, step).objects && NobodyHolds(Next(maxBytes, s, step), key)
  {
    var u := Next(maxBytes, s, step);
    if step.t in s.tasks {
      assert !HoldsKey(s.tasks[step.t], key);
      OneTaskMoves(s, u, step.t, key);
    }
  }

  lemma StattedKeepsSafe(maxBytes: int, s: System, t: nat, key: string)
    requires NobodyHolds(s, key) && t in s.tasks
    ensures Statted(maxBytes, s, t).objects == s.objects && NobodyHolds(Statted(maxBytes, s, t), key)
  {
    assert !HoldsKey(s.tasks[t], key);
    OneTaskMoves(s, Statted(maxBytes, s, t), t, key);
  }

  lemma MarkedKeepsSafe(s: System, t: nat, key: string)
    requires NobodyHolds(s, key) && t in s.tasks
    ensures Marked(s, t).objects == s.objects && NobodyHolds(Marked(s, t), key)
  {
    assert !HoldsKey(s.tasks[t], key);
    OneTaskMoves(s, Marked(s, t), t, key);
  }

  lemma SweepKeepsSafe(maxBytes: int, s: System, step: Step, key: string)
    requires NobodyHolds(s, key) && key in s.objects && SweepsOn(step)
    ensures key in Next(maxBytes, s, step).objects && NobodyHolds(Next(maxBytes, s, step), key)
  {
    if step.t in s.tasks {
      SweptKeepsSafe(s, step.t, key);
      SweptRowKeepsSafe(s, step.t, key);
      SkippedKeepsSafe(s, step.t, key);
    }
  }

  lemma CompletionKeepsSafe(maxBytes: int, s: System, step: Step, key: string)
    requires NobodyHolds(s, key) && key in s.objects && (step.Stat? || step.MarkReady?)
    ensures key in Next(maxBytes, s, step).objects && NobodyHolds(Next(maxBytes, s, step), key)
  {
    if step.t in s.tasks {
      StattedKeepsSafe(maxBytes, s, step.t, key);
      MarkedKeepsSafe(s, step.t, key);
    }
  }

  lemma StepKeepsSafe(maxBytes: int, s: System, step: Step, id: Uuid, key: string)
    requires Inv(maxBytes, s) && SafeObject(s, id, key) && id in Next(maxBytes, s, step).rows
    ensures SafeObject(Next(maxBytes, s, step), id, key)
  {
    NextIsOnward(maxBytes, s, step);
    KeysStayDistinct(maxBytes, s, step);
    if SweepsOn(step) {
      SweepKeepsSafe(maxBytes, s, step, key);
    } else if StartsTask(step) {
      StartKeepsSafe(maxBytes, s, step, id, key);
    } else if EndsTask(step) {
      EndKeepsSafe(maxBytes, s, step, id, key);
    } else if step.Stat? || step.MarkReady? {
      CompletionKeepsSafe(maxBytes, s, step, key);
    }
  }

  lemma {:induction false} RunKeepsSafe(maxBytes: int, s: System, steps: seq<Step>, id: Uuid, key: string)
    requires Inv(maxBytes, s) && SafeObject(s, id, key) && id in After(maxBytes, s, steps).rows
    ensures SafeObject(After(maxBytes, s, steps), id, key)
    decreases |steps|
  {
    if steps != [] {
      var d := Later(s);
      MovingOnKeepsInv(maxBytes, s, d);
      assert SafeObject(d, id, key);
      var next := Next(maxBytes, d, steps[0]);
      NextKeepsInv(maxBytes, d, steps[0]);
      if id in next.rows {
        StepKeepsSafe(maxBytes, d, steps[0], id, key);
        RunKeepsSafe(maxBytes, next, steps[1..], id, key);
      } else {
        NextIsOnward(maxBytes, d, steps[0]);
        assert RowOk(maxBytes, d, id);
        RunIsOnward(maxBytes, next, steps[1..]);
        assert false;
      }
    }
  }

  /** The object is gone and the row is as it was. */
  ghost predicate Loses(maxBytes: int, s: System, steps: seq<Step>, id: Uuid, key: string) {
    var u := After(maxBytes, s, steps);
    id in u.rows && key !in u.objects
  }

  lemma {:induction false} SweepReaches(maxBytes: int, s: System, t: nat, i: nat, id: Uuid, key: string)
    returns (steps: seq<Step>)
    requires id in s.rows && t in s.tasks && s.tasks[t].Sweeping? && i < |s.tasks[t].left|
            && s.tasks[t].left[i].key == key
    ensures Loses(maxBytes, s, steps, id, key)
    decreases i
  {
    if i == 0 {
      steps := [SweepObject(t)];
      assert steps == [SweepObject(t)] + [];
      AfterOne(maxBytes, s, SweepObject(t), []);
    } else {
      var next := Next(maxBytes, Later(s), SkipRow(t));
      var rest := SweepReaches(maxBytes, next, t, i - 1, id, key);
      steps := [SkipRow(t)] + rest;
      AfterOne(maxBytes, s, SkipRow(t), rest);
    }
  }

  lemma SweepRowReaches(maxBytes: int, s: System, t: nat, id: Uuid, key: string) returns (steps: seq<Step>)
    requires id in s.rows && t in s.tasks && s.tasks[t].SweepingRow? && HoldsKey(s.tasks[t], key)
    ensures Loses(maxBytes, s, steps, id, key)
  {
    var left := s.tasks[t].left;
    var i :| 1 <= i < |left| && left[i].key == key;
    var next := Next(maxBytes, Later(s), SkipRow(t));
    assert left[1..][i - 1] == left[i];
    var rest := SweepReaches(maxBytes, next, t, i - 1, id, key);
    steps := [SkipRow(t)] + rest;
    AfterOne(maxBytes, s, SkipRow(t), rest);
  }

  /** A completion that was loaded before the row became ready finds an object that has since grown
      too large, and deletes it. */
  lemma CompletionReaches(maxBytes: int, s: System, t: nat, id: Uuid, key: string) returns (steps: seq<Step>)
    requires maxBytes >= 0 && id in s.rows && t in s.tasks && s.tasks[t].Completing? && s.tasks[t].key == key
    ensures Loses(maxBytes, s, steps, id, key)
  {
    var put, stat, drop := Put(key, ObjectInfo(maxBytes + 1, "")), Stat(t), DropOversized(t);
    var s1 := Next(maxBytes, Later(s), put);
    var s2 := Next(maxBytes, Later(s1), stat);
    assert s2.tasks[t] == Oversized(key);
    steps := [put, stat, drop];
    assert steps == [put] + ([stat] + ([drop] + []));
    AfterOne(maxBytes, s, put, [stat] + ([drop] + []));
    AfterOne(maxBytes, s1, stat, [drop] + []);
    AfterOne(maxBytes, s2, drop, []);
  }

  /** Any task that holds the key can delete the object, and leave the row. */
  lemma HolderReaches(maxBytes: int, s: System, t: nat, id: Uuid, key: string) returns (steps: seq<Step>)
    requires maxBytes >= 0 && id in s.rows && t in s.tasks && HoldsKey(s.tasks[t], key)
    ensures Loses(maxBytes, s, steps, id, key)
  {
    match s.tasks[t]
    case Completing(_, _) => steps := CompletionReaches(maxBytes, s, t, id, key);
    case Oversized(_) =>
      steps := [DropOversized(t)];
      assert steps == [DropOversized(t)] + [];
      AfterOne(maxBytes, s, DropOversized(t), []);
    case Discarding(_) =>
      steps := [DeleteObject(t)];
      assert steps == [DeleteObject(t)] + [];
      AfterOne(maxBytes, s, DeleteObject(t), []);
    case Sweeping(left) =>
      var i :| 0 <= i < |left| && left[i].key == key;
      steps := SweepReaches(maxBytes, s, t, i, id, key);
    case SweepingRow(_) => steps := SweepRowReaches(maxBytes, s, t, id, key);
  }

  /** Exactly when the stored object of a ready attachment is safe from whatever may follow: if no
      request or sweep under way holds its key. */
  lemma ReadyObjectIsSafeWhen(maxBytes: int, first: seq<Step>, id: Uuid)
    requires var s := After(maxBytes, START, first);
             id in s.rows && s.rows[id].status.Ready? && s.rows[id].objectKey in s.objects
    ensures var s := After(maxBytes, START, first);
            var key := s.rows[id].objectKey;
            (forall steps :: id in After(maxBytes, s, steps).rows ==> key in After(maxBytes, s, steps).objects)
            <==> NobodyHolds(s, key)
  {
    var s := After(maxBytes, START, first);
    var key := s.rows[id].objectKey;
    RunIsOnward(maxBytes, START, first);
    RunKeepsKeysDistinct(maxBytes, START, first);
    assert RowOk(maxBytes, s, id);
    if NobodyHolds(s, key) {
      forall steps | id in After(maxBytes, s, steps).rows
        ensures key in After(maxBytes, s, steps).objects
      {
        RunKeepsSafe(maxBytes, s, steps, id, key);
      }
    } else {
      var t :| t in s.tasks && HoldsKey(s.tasks[t], key);
      var steps := HolderReaches(maxBytes, s, t, id, key);
      assert id in After(maxBytes, s, steps).rows;
    }
  }

  lemma {:induction false} RunKeepsKeysDistinct(maxBytes: int, s: System, steps: seq<Step>)
    requires KeysDistinct(s.rows)
    ensures KeysDistinct(After(maxBytes, s, steps).rows)
    decreases |steps|
  {
    if steps != [] {
      KeysStayDistinct(maxBytes, Later(s), steps[0]);
      RunKeepsKeysDistinct(maxBytes, Next(maxBytes, Later(s), steps[0]), steps[1..]);
    }
  }

  /** Two completions of one attachment: while one waits to stat the object, the other makes the row
      ready, and the first then deletes an object uploaded since. */
  lemma SecondCompletionCanLoseObject(maxBytes: int, s: System, id: Uuid, slow: nat, quick: nat)
    returns (steps: seq<Step>)
    requires id in s.rows && s.rows[id].status.Pending? && s.rows[id].objectKey in s.objects
    requires 0 < s.objects[s.rows[id].objectKey].size <= maxBytes
    requires slow !in s.tasks && quick !in s.tasks && slow != quick
    ensures var u := After(maxBytes, s, steps);
            id in u.rows && u.rows[id].status.Ready? && u.rows[id].objectKey == s.rows[id].objectKey
            && u.rows[id].objectKey !in u.objects
    ensures forall i | 0 <= i < |steps| :: !steps[i].ListStale?
  {
    var key := s.rows[id].objectKey;
    var s1 := Next(maxBytes, Later(s), LoadPending(slow, id));
    var s2 := Next(maxBytes, Later(s1), LoadPending(quick, id));
    var s3 := Next(maxBytes, Later(s2), Stat(quick));
    assert s3.tasks[quick] == Verified(id, s.objects[key]);
    var s4 := Next(maxBytes, Later(s3), MarkReady(quick));
    assert s4.rows[id].status.Ready? && s4.tasks[slow] == Completing(id, key);
    var put, stat, drop := Put(key, ObjectInfo(maxBytes + 1, "")), Stat(slow), DropOversized(slow);
    var s5 := Next(maxBytes, Later(s4), put);
    var s6 := Next(maxBytes, Later(s5), stat);
    assert s6.tasks[slow] == Oversized(key);
    var tail := [put] + ([stat] + ([drop] + []));
    AfterOne(maxBytes, s4, put, [stat] + ([drop] + []));
    AfterOne(maxBytes, s5, stat, [drop] + []);
    AfterOne(maxBytes, s6, drop, []);
    steps := [LoadPending(slow, id)] + ([LoadPending(quick, id)] + ([Stat(quick)] + ([MarkReady(quick)] + tail)));
    AfterOne(maxBytes, s, LoadPending(slow, id),
             [LoadPending(quick, id)] + ([Stat(quick)] + ([MarkReady(quick)] + tail)));
    AfterOne(maxBytes, s1, LoadPending(quick, id), [Stat(quick)] + ([MarkReady(quick)] + tail));
    AfterOne(maxBytes, s2, Stat(quick), [MarkReady(quick)] + tail);
    AfterOne(maxBytes, s3, MarkReady(quick), tail);
  }

  /** A sweep that has listed a pending row deletes the object of an upload completed in the meantime. */
  lemma SweepCanOutrunCompletion(maxBytes: int, s: System, id: Uuid, sweep: nat, request: nat)
    requires id in s.rows && s.rows[id].status.Pending? && s.rows[id].objectKey in s.objects
    requires 0 < s.objects[s.rows[id].objectKey].size <= maxBytes
    requires sweep !in s.tasks && request !in s.tasks && sweep != request
    ensures var key := s.rows[id].objectKey;
            var steps := [ListStale(sweep, [Listing(id, key)]), LoadPending(request, id), Stat(request),
                          MarkReady(request), SweepObject(sweep)];
            var u := After(maxBytes, s, steps);
            id in u.rows && u.rows[id].status.Ready? && u.rows[id].objectKey == key && key !in u.objects
  {
    var key := s.rows[id].objectKey;
    var l := [Listing(id, key)];
    var s1 := Next(maxBytes, Later(s), ListStale(sweep, l));
    assert s1.tasks[sweep] == Sweeping(l);
    var s2 := Next(maxBytes, Later(s1), LoadPending(request, id));
    assert s2.tasks[request] == Completing(id, key);
    var s3 := Next(maxBytes, Later(s2), Stat(request));
    assert s3.tasks[request] == Verified(id, s.objects[key]);
    var s4 := Next(maxBytes, Later(s3), MarkReady(request));
    assert s4.rows[id].status.Ready? && s4.tasks[sweep] == Sweeping(l);
    AfterFive(maxBytes, s, ListStale(sweep, l), LoadPending(request, id), Stat(request), MarkReady(request),
        SweepObject(sweep));
  }

  /** A pending row with a stored object is two calls away from nothing. */
  lemma UploadIsReachable(maxBytes: int, id: Uuid, row: Attachment) returns (first: seq<Step>)
    requires 0 < row.size <= maxBytes && row.status.Pending?
    ensures forall i | 0 <= i < |first| :: !first[i].ListStale?
    ensures var s := After(maxBytes, START, first);
            && id in s.rows && s.rows[id] == row && s.tasks == map[]
            && row.objectKey in s.objects && s.objects[row.objectKey].size == 1
  {
    var put := Put(row.objectKey, ObjectInfo(1, ""));
    first := [Insert(id, row), put];
    var s1 := Next(maxBytes, Later(START), Insert(id, row));
    assert s1.rows == map[id := row];
    assert first == [Insert(id, row)] + ([put] + []);
    AfterOne(maxBytes, START, Insert(id, row), [put] + []);
    AfterOne(maxBytes, s1, put, []);
  }

  lemma {:induction false} AfterBoth(maxBytes: int, s: System, a: seq<Step>, b: seq<Step>)
    ensures After(maxBytes, s, a + b) == After(maxBytes, After(maxBytes, s, a), b)
    decreases |a|
  {
    if a == [] {
      assert a + b == b;
    } else {
      assert (a + b)[1..] == a[1..] + b;
      AfterBoth(maxBytes, Next(maxBytes, Later(s), a[0]), a[1..], b);
    }
  }

  /** From the empty tables there are runs, one with a sweep and one without, that end with a ready row
      whose object is gone. */
  lemma ReadyObjectCanBeLost(maxBytes: int, id: Uuid, row: Attachment) returns (swept: seq<Step>, completed: seq<Step>)
    requires 0 < row.size <= maxBytes && row.status.Pending?
    ensures forall steps | steps == swept || steps == completed ::
              var u := After(maxBytes, START, steps);
              && id in u.rows && u.rows[id].status.Ready?
              && u.rows[id].objectKey == row.objectKey && row.objectKey !in u.objects
    ensures forall i | 0 <= i < |completed| :: !completed[i].ListStale?
  {
    var first := UploadIsReachable(maxBytes, id, row);
    var s := After(maxBytes, START, first);
    SweepCanOutrunCompletion(maxBytes, s, id, 0, 1);
    var l := [Listing(id, row.objectKey)];
    var sweep := [ListStale(0, l), LoadPending(1, id), Stat(1), MarkReady(1), SweepObject(0)];
    var second := SecondCompletionCanLoseObject(maxBytes, s, id, 0, 1);
    AfterBoth(maxBytes, START, first, sweep);
    AfterBoth(maxBytes, START, first, second);
    swept, completed := first + sweep, first + second;
  }

  lemma AfterOne(maxBytes: int, s: System, a: Step, rest: seq<Step>)
    ensures After(maxBytes, s, [a] + rest) == After(maxBytes, Next(maxBytes, Later(s), a), rest)
  {
    assert ([a] + rest)[1..] == rest;
  }

  lemma AfterFive(maxBytes: int, s: System, a: Step, b: Step, c: Step, d: Step, e: Step)
    ensures var s1 := Next(maxBytes, Later(s), a);
            var s2 := Next(maxBytes, Later(s1), b);
            var s3 := Next(maxBytes, Later(s2), c);
            var s4 := Next(maxBytes, Later(s3), d);
            After(maxBytes, s, [a, b, c, d, e]) == Next(maxBytes, Later(s4), e)
  {
    var s1 := Next(maxBytes, Later(s), a);
    var s2 := Next(maxBytes, Later(s1), b);
    var s3 := Next(maxBytes, Later(s2), c);
    var s4 := Next(maxBytes, Later(s3), d);
    assert [a, b, c, d, e] == [a] + ([b] + ([c] + ([d] + ([e] + []))));
    AfterOne(maxBytes, s, a, [b] + ([c] + ([d] + ([e] + []))));
    AfterOne(maxBytes, s1, b, [c] + ([d] + ([e] + [])));
    AfterOne(maxBytes, s2, c, [d] + ([e] + []));
    AfterOne(maxBytes, s3, d, [e] + []);
    AfterOne(maxBytes, s4, e, []);
  }

  /** The calls of a sweep that nothing disturbs, from one with `n` rows left to its end. */
  function SweepCalls(t: nat, n: nat): seq<Step> {
    if n == 0 then [SweepObject(t)] else [SweepObject(t)] + ([SweepRow(t)] + SweepCalls(t, n - 1))
  }

  /** The rows and the objects of a sweep's list are gone, everything else is there, and it has ended. */
  ghost predicate ListIsSwept(s: System, u: System, t: nat, left: seq<Listing>) {
    && u.rows == s.rows - (set l | l in left :: l.id)
    && u.objects == s.objects - (set l | l in left :: l.key)
    && u.tasks == s.tasks[t := Finished]
  }

  /** If nothing disturbs it, a sweep removes exactly the objects and the rows it has left, and ends. */
  lemma {:induction false} SweepRemovesItsRows(maxBytes: int, s: System, t: nat, left: seq<Listing>)
    requires t in s.tasks && s.tasks[t] == Sweeping(left)
    ensures ListIsSwept(s, After(maxBytes, s, SweepCalls(t, |left|)), t, left)
    decreases |left|
  {
    if left == [] {
      EmptySweepEnds(maxBytes, s, t);
    } else {
      var next := SweptPair(maxBytes, s, t, SweepCalls(t, |left| - 1));
      SweepRemovesItsRows(maxBytes, next, t, left[1..]);
      SweptOnwards(s, next, After(maxBytes, next, SweepCalls(t, |left[1..]|)), t, left);
    }
  }

  lemma SweptOnwards(s: System, next: System, u: System, t: nat, left: seq<Listing>)
    requires left != [] && ListIsSwept(next, u, t, left[1..])
    requires next.rows == s.rows - {left[0].id} && next.objects == s.objects - {left[0].key}
    requires t in s.tasks && next.tasks == s.tasks[t := Sweeping(left[1..])]
    ensures ListIsSwept(s, u, t, left)
  {
    FirstAndRest(left);
  }

  lemma EmptySweepEnds(maxBytes: int, s: System, t: nat)
    requires t in s.tasks && s.tasks[t].Sweeping? && s.tasks[t].left == []
    ensures After(maxBytes, s, SweepCalls(t, 0)) == Later(s).(tasks := s.tasks[t := Finished])
  {
    AfterOne(maxBytes, s, SweepObject(t), []);
  }

  lemma FirstAndRest(left: seq<Listing>)
    requires left != []
    ensures (set l | l in left :: l.id) == {left[0].id} + set l | l in left[1..] :: l.id
    ensures (set l | l in left :: l.key) == {left[0].key} + set l | l in left[1..] :: l.key
  {
    assert left == [left[0]] + left[1..];
  }

  /** A row's two calls, and what remains of the sweep. */
  lemma SweptPair(maxBytes: int, s: System, t: nat, rest: seq<Step>) returns (next: System)
    requires t in s.tasks && s.tasks[t].Sweeping? && s.tasks[t].left != []
    ensures var left := s.tasks[t].left;
            && After(maxBytes, s, [SweepObject(t)] + ([SweepRow(t)] + rest)) == After(maxBytes, next, rest)
            && next.rows == s.rows - {left[0].id} && next.objects == s.objects - {left[0].key}
            && next.tasks == s.tasks[t := Sweeping(left[1..])]
  {
    var mid := Next(maxBytes, Later(s), SweepObject(t));
    next := Next(maxBytes, Later(mid), SweepRow(t));
    AfterOne(maxBytes, s, SweepObject(t), [SweepRow(t)] + rest);
    AfterOne(maxBytes, mid, SweepRow(t), rest);
  }

  /** If nothing disturbs it, a completion of a pending row makes it ready exactly if an object of an
      accepted size is stored, drops one that is too large, and ends. */
  lemma CompletionRunsThrough(maxBytes: int, s: System, t: nat, id: Uuid)
    requires id in s.rows && s.rows[id].status.Pending? && t !in s.tasks && maxBytes >= 0
    ensures var key := s.rows[id].objectKey;
            var u := After(maxBytes, s, [LoadPending(t, id), Stat(t), MarkReady(t), DropOversized(t)]);
            && u.tasks == s.tasks[t := Finished]
            && id in u.rows && u.rows == s.rows[id := u.rows[id]]
            && (u.rows[id].status.Ready? <==> key in s.objects && 0 < s.objects[key].size <= maxBytes)
            && (u.rows[id].status.Ready? ==>
                  u.rows[id].size == s.objects[key].size && u.rows[id].checksum == Some(s.objects[key].etag))
            && (u.rows[id].status.Pending? ==> u.rows[id] == s.rows[id])
            && u.objects == if key in s.objects && s.objects[key].size > maxBytes then s.objects - {key} else s.objects
  {
    var a := Next(maxBytes, Later(s), LoadPending(t, id));
    assert a.tasks == s.tasks[t := Completing(id, s.rows[id].objectKey)];
    CompletionEnds(maxBytes, a, t);
    AfterOne(maxBytes, s, LoadPending(t, id), [Stat(t), MarkReady(t), DropOversized(t)]);
    assert [LoadPending(t, id), Stat(t), MarkReady(t), DropOversized(t)]
        == [LoadPending(t, id)] + [Stat(t), MarkReady(t), DropOversized(t)];
  }

  lemma CompletionEnds(maxBytes: int, s: System, t: nat)
    requires t in s.tasks && s.tasks[t].Completing? && s.tasks[t].id in s.rows
    requires s.rows[s.tasks[t].id].status.Pending? && maxBytes >= 0
    ensures var id, key := s.tasks[t].id, s.tasks[t].key;
            var u := After(maxBytes, s, [Stat(t), MarkReady(t), DropOversized(t)]);
            var kept, large := s.objects, s.objects - {key};
            && u.tasks == s.tasks[t := Finished]
            && u.objects == (if key in kept && kept[key].size > maxBytes then large else kept)
            && u.rows == if key in kept && 0 < kept[key].size <= maxBytes then
                           s.rows[id := Completed(s.rows[id], kept[key].size, kept[key].etag, s.now + 2)]
                         else s.rows
  {
    var b := Next(maxBytes, Later(s), Stat(t));
    assert b.rows == s.rows && b.objects == s.objects && b.now == s.now + 1;
    assert b.tasks == s.tasks[t := b.tasks[t]];
    AfterOne(maxBytes, s, Stat(t), [MarkReady(t), DropOversized(t)]);
    assert [Stat(t), MarkReady(t), DropOversized(t)] == [Stat(t)] + [MarkReady(t), DropOversized(t)];
    LastCallsEnd(maxBytes, b, t);
  }

  lemma LastCallsEnd(maxBytes: int, s: System, t: nat)
    requires t in s.tasks && (s.tasks[t].Verified? || s.tasks[t].Oversized? || s.tasks[t].Finished?)
    ensures var u := After(maxBytes, s, [MarkReady(t), DropOversized(t)]);
            && u.tasks == s.tasks[t := Finished]
            && u.objects == (if s.tasks[t].Oversized? then s.objects - {s.tasks[t].key} else s.objects)
            && u.rows == Marked(Later(s), t).rows
  {
    var c := Next(maxBytes, Later(s), MarkReady(t));
    AfterOne(maxBytes, s, MarkReady(t), [DropOversized(t)] + []);
    AfterOne(maxBytes, c, DropOversized(t), []);
    assert [MarkReady(t), DropOversized(t)] == [MarkReady(t)] + ([DropOversized(t)] + []);
  }

  /** Once it has looked at the object, a completion goes on to remove it exactly if it is too large. */
  lemma LookingDecides(maxBytes: int, s: System, t: nat, id: Uuid)
    requires id in s.rows && s.rows[id].status.Pending? && t !in s.tasks
    ensures var key := s.rows[id].objectKey;
            var u := After(maxBytes, s, [LoadPending(t, id), Stat(t)]);
            && t in u.tasks && u.rows == s.rows && u.objects == s.objects
            && (HoldsKey(u.tasks[t], key) <==> key in s.objects && s.objects[key].size > maxBytes)
  {
    var a := Next(maxBytes, Later(s), LoadPending(t, id));
    AfterOne(maxBytes, s, LoadPending(t, id), [Stat(t)] + []);
    AfterOne(maxBytes, a, Stat(t), []);
    assert [LoadPending(t, id), Stat(t)] == [LoadPending(t, id)] + ([Stat(t)] + []);
  }

  /** A request that breaks off changes nothing and holds no key any longer. */
  lemma BreakingOffLetsGo(maxBytes: int, s: System, t: nat, key: string)
    requires t in s.tasks && forall r | r in s.tasks && r != t :: !HoldsKey(s.tasks[r], key)
    ensures var u := Next(maxBytes, s, Abandon(t));
            NobodyHolds(u, key) && u.rows == s.rows && u.objects == s.objects
  {
  }
}
