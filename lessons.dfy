/** Lesson creation, the weekly expansion of a recurring request, lesson
    updates and the two per-user lesson reads (src/lib/db/lessons.ts). */
module Lessons {
  import opened Types
  import opened Store
  import opened Query

  const DayMs: int := 24 * 60 * 60 * 1000
  const WeekMs: int := 7 * DayMs

  /** An update as `Partial<Lesson>`: `None` leaves a column as it is. */
  datatype LessonPatch = LessonPatch(
    tutorId: Option<UserId>,
    studentId: Option<UserId>,
    title: Option<string>,
    subject: Option<string>,
    startTime: Option<int>,
    endTime: Option<int>,
    status: Option<LessonStatus>,
    description: Option<string>,
    notes: Option<string>,
    googleMeetLink: Option<string>,
    isRecurring: Option<bool>,
    recurringUntil: Option<int>,
    parentLessonId: Option<LessonId>)

  /** `{ parent_lesson_id: id }`. */
  function ParentPatch(id: LessonId): LessonPatch {
    LessonPatch(None, None, None, None, None, None, None, None, None, None, None, None, Some(id))
  }

  function OrKeep<T>(update: Option<T>, current: T): T {
    if update.Some? then update.value else current
  }

  function OrKeepOptional<T>(update: Option<T>, current: Option<T>): Option<T> {
    if update.Some? then update else current
  }

  /** A row with the patched columns replaced; the id is never patched. */
  function ApplyPatch(l: Lesson, p: LessonPatch): (r: Lesson)
    ensures r.id == l.id
    ensures r.tutorId == (if p.tutorId.Some? then p.tutorId.value else l.tutorId)
    ensures r.studentId == (if p.studentId.Some? then p.studentId.value else l.studentId)
    ensures r.title == (if p.title.Some? then p.title.value else l.title)
    ensures r.subject == (if p.subject.Some? then p.subject.value else l.subject)
    ensures r.startTime == (if p.startTime.Some? then p.startTime.value else l.startTime)
    ensures r.endTime == (if p.endTime.Some? then p.endTime.value else l.endTime)
    ensures r.status == (if p.status.Some? then p.status.value else l.status)
    ensures r.description == (if p.description.Some? then p.description else l.description)
    ensures r.notes == (if p.notes.Some? then p.notes else l.notes)
    ensures r.googleMeetLink == (if p.googleMeetLink.Some? then p.googleMeetLink else l.googleMeetLink)
    ensures r.isRecurring == (if p.isRecurring.Some? then p.isRecurring.value else l.isRecurring)
    ensures r.recurringUntil == (if p.recurringUntil.Some? then p.recurringUntil else l.recurringUntil)
    ensures r.parentLessonId == (if p.parentLessonId.Some? then p.parentLessonId else l.parentLessonId)
  {
    Lesson(l.id, OrKeep(p.tutorId, l.tutorId), OrKeep(p.studentId, l.studentId),
           OrKeep(p.title, l.title), OrKeep(p.subject, l.subject),
           OrKeep(p.startTime, l.startTime), OrKeep(p.endTime, l.endTime),
           OrKeep(p.status, l.status), OrKeepOptional(p.description, l.description),
           OrKeepOptional(p.notes, l.notes), OrKeepOptional(p.googleMeetLink, l.googleMeetLink),
           OrKeep(p.isRecurring, l.isRecurring), OrKeepOptional(p.recurringUntil, l.recurringUntil),
           OrKeepOptional(p.parentLessonId, l.parentLessonId))
  }

  /** `update(patch).eq('id', id)` applied to a list of rows. */
  function PatchWhere(rows: seq<Lesson>, id: LessonId, p: LessonPatch): (r: seq<Lesson>)
    ensures |r| == |rows|
    ensures forall i :: 0 <= i < |rows| && rows[i].id != id ==> r[i] == rows[i]
    ensures forall i :: 0 <= i < |rows| && rows[i].id == id ==> r[i] == ApplyPatch(rows[i], p)
  {
    seq(|rows|, i requires 0 <= i < |rows| => if rows[i].id == id then ApplyPatch(rows[i], p) else rows[i])
  }

  /** Applying the same patch twice is applying it once. */
  lemma PatchIdempotent(l: Lesson, p: LessonPatch)
    ensures ApplyPatch(ApplyPatch(l, p), p) == ApplyPatch(l, p)
  {
  }

  /** The empty patch `{}` changes nothing. */
  lemma EmptyPatchKeeps(l: Lesson)
    ensures ApplyPatch(l, LessonPatch(None, None, None, None, None, None, None, None, None, None, None, None, None)) == l
  {
  }

  /** Repeating an update changes nothing more: the rows with the id keep
      the id, so the second update patches the same rows again. */
  lemma UpdateTwiceIsOnce(rows: seq<Lesson>, id: LessonId, p: LessonPatch)
    ensures PatchWhere(PatchWhere(rows, id, p), id, p) == PatchWhere(rows, id, p)
  {
    var once := PatchWhere(rows, id, p);
    var twice := PatchWhere(once, id, p);
    forall i | 0 <= i < |rows| ensures twice[i] == once[i] {
      if rows[i].id == id {
        PatchIdempotent(rows[i], p);
      }
    }
  }

  /** `createLesson`: one insert. On error the result is null and the table is
      unchanged; otherwise the stored row, with a fresh id, is returned. */
  method CreateLesson(table: LessonTable, draft: LessonDraft, accepted: bool) returns (r: Option<Lesson>)
    requires table.Valid()
    modifies table
    ensures table.Valid()
    ensures r == if accepted then Some(StoredLesson(draft, old(table.nextId))) else None
    ensures table.rows == if accepted then old(table.rows) + [StoredLesson(draft, old(table.nextId))] else old(table.rows)
    ensures table.nextId == if accepted then old(table.nextId) + 1 else old(table.nextId)
    ensures r.Some? ==> forall i :: 0 <= i < |old(table.rows)| ==> old(table.rows)[i].id != r.value.id
  {
    if accepted {
      var row := StoredLesson(draft, table.nextId);
      table.rows := table.rows + [row];
      table.nextId := table.nextId + 1;
      r := Some(row);
    } else {
      r := None;
    }
  }

  /** `updateLesson`: every row with that id is patched and the result is true;
      on error nothing changes and the result is false. An id that matches no
      row is not an error. */
  method UpdateLesson(table: LessonTable, id: LessonId, patch: LessonPatch, accepted: bool) returns (ok: bool)
    requires table.Valid()
    modifies table
    ensures table.Valid()
    ensures ok == accepted
    ensures table.nextId == old(table.nextId)
    ensures table.rows == if accepted then PatchWhere(old(table.rows), id, patch) else old(table.rows)
  {
    if accepted {
      table.rows := PatchWhere(table.rows, id, patch);
    }
    ok := accepted;
  }

  // ---------------------------------------------------------------------------
  // Recurring lessons

  /** The argument of `createRecurringLessons`, with `start_time`, `end_time`
      and `recurring_until` already read as milliseconds since the epoch. */
  datatype RecurringRequest = RecurringRequest(
    tutorId: UserId,
    studentId: UserId,
    title: string,
    subject: string,
    startTime: int,
    endTime: int,
    description: Option<string>,
    recurringUntil: int,
    googleMeetLink: Option<string>)

  /** How many weeks the loop attempts: the starts `start + k * WeekMs` that do
      not pass `until`. */
  function AttemptCount(start: int, until: int): (c: nat)
    ensures c > 0 <==> start <= until
  {
    if until < start then 0 else (until - start) / WeekMs + 1
  }

  /** Week `k` is attempted exactly when its start is at or before the bound. */
  lemma AttemptedExactly(start: int, until: int, k: nat)
    ensures k < AttemptCount(start, until) <==> start + k * WeekMs <= until
  {
    if until >= start {
      var q := (until - start) / WeekMs;
      assert until - start == q * WeekMs + (until - start) % WeekMs;
      if k <= q {
        assert k * WeekMs <= q * WeekMs;
      } else {
        assert k * WeekMs >= (q + 1) * WeekMs;
      }
    } else {
      assert k * WeekMs >= 0;
    }
  }

  /** The weeks below `n` whose insert the database accepted, in increasing order. */
  function SuccessfulWeeks(accepted: nat -> bool, n: nat): (ks: seq<nat>)
    ensures forall k: nat :: k in ks <==> k < n && accepted(k)
    ensures forall i :: 0 <= i < |ks| ==> ks[i] < n
    ensures forall i, j :: 0 <= i < j < |ks| ==> ks[i] < ks[j]
  {
    if n == 0 then [] else SuccessfulWeeks(accepted, n - 1) + (if accepted(n - 1) then [n - 1] else [])
  }

  /** The insert payload of week `k`: the request's columns, the start moved
      by `k` weeks, the original duration, `is_recurring` set and the parent
      id once one is known. `recurring_until` is not copied. */
  function WeekDraft(req: RecurringRequest, k: nat, parent: Option<LessonId>): (d: LessonDraft)
    ensures d.startTime - req.startTime == k * WeekMs
    ensures d.endTime - d.startTime == req.endTime - req.startTime
    ensures d.tutorId == req.tutorId && d.studentId == req.studentId
    ensures d.title == req.title && d.subject == req.subject
    ensures d.description == req.description && d.googleMeetLink == req.googleMeetLink
    ensures d.isRecurring && d.recurringUntil == None && d.parentLessonId == parent
  {
    var start := req.startTime + k * WeekMs;
    LessonDraft(req.tutorId, req.studentId, req.title, req.subject, start,
                start + (req.endTime - req.startTime), req.description, true, None,
                req.googleMeetLink, parent)
  }

  /** The lessons the first `n` weeks of the loop return when the database hands
      out ids from `firstId`: each accepted week adds the stored row of its
      insert, whose parent is `firstId` once a first row exists. */
  function Series(req: RecurringRequest, accepted: nat -> bool, firstId: LessonId, n: nat): (s: seq<Lesson>)
    ensures |s| <= n
  {
    if n == 0 then []
    else
      var prev := Series(req, accepted, firstId, n - 1);
      if accepted(n - 1) then
        prev + [StoredLesson(WeekDraft(req, n - 1, if prev == [] then None else Some(firstId)), firstId + |prev|)]
      else prev
  }

  /** Closed form of a series: the i-th instance is the insert of the i-th
      accepted week, with id `firstId + i` and, after the first, parent `firstId`. */
  lemma {:induction false} SeriesAt(req: RecurringRequest, accepted: nat -> bool, firstId: LessonId, n: nat)
    ensures |Series(req, accepted, firstId, n)| == |SuccessfulWeeks(accepted, n)|
    ensures forall i :: 0 <= i < |Series(req, accepted, firstId, n)| ==>
      Series(req, accepted, firstId, n)[i] ==
        StoredLesson(WeekDraft(req, SuccessfulWeeks(accepted, n)[i], if i == 0 then None else Some(firstId)), firstId + i)
  {
    if n > 0 {
      SeriesAt(req, accepted, firstId, n - 1);
      var prev := Series(req, accepted, firstId, n - 1);
      var weeks := SuccessfulWeeks(accepted, n);
      assert weeks == SuccessfulWeeks(accepted, n - 1) + (if accepted(n - 1) then [n - 1] else []);
      if accepted(n - 1) {
        assert weeks[|prev|] == n - 1;
      }
    }
  }

  /** What the table holds of a returned series: the first row is updated to be
      its own parent when that update succeeded. */
  function StoredSeries(s: seq<Lesson>, updated: bool): (r: seq<Lesson>)
    ensures |r| == |s|
    ensures forall i :: 0 < i < |s| ==> r[i] == s[i]
    ensures s != [] ==> r[0] == if updated then s[0].(parentLessonId := Some(s[0].id)) else s[0]
  {
    if s != [] && updated then [s[0].(parentLessonId := Some(s[0].id))] + s[1..] else s
  }

  /** Appending a row to a series that already has a first row keeps the stored
      form of the earlier rows. */
  lemma StoredSeriesAppend(s: seq<Lesson>, row: Lesson, updated: bool)
    requires s != []
    ensures StoredSeries(s + [row], updated) == StoredSeries(s, updated) + [row]
  {
    if updated {
      assert (s + [row])[1..] == s[1..] + [row];
    }
  }

  /** Pointing a fresh row at itself changes that row only. */
  lemma FirstRowPatched(rows: seq<Lesson>, row: Lesson)
    requires forall i :: 0 <= i < |rows| ==> rows[i].id != row.id
    ensures PatchWhere(rows + [row], row.id, ParentPatch(row.id)) == rows + [row.(parentLessonId := Some(row.id))]
  {
    var patched := PatchWhere(rows + [row], row.id, ParentPatch(row.id));
    forall i | 0 <= i < |rows| ensures patched[i] == rows[i] {
      assert (rows + [row])[i] == rows[i];
    }
    assert patched[|rows|] == row.(parentLessonId := Some(row.id));
  }

  /** `createRecurringLessons`: one insert per week from `start_time` while the
      start does not pass `recurring_until`, each lasting `end_time - start_time`.
      A failed insert is skipped. The first accepted insert's id becomes the
      parent of every later instance, and that first row is then updated to
      point at itself. `insertAccepted(k)` is the database's answer to week k,
      `updateAccepted` its answer to the one update. */
  method CreateRecurringLessons(table: LessonTable, req: RecurringRequest, insertAccepted: nat -> bool, updateAccepted: bool)
    returns (lessons: seq<Lesson>)
    requires table.Valid()
    modifies table
    ensures table.Valid()
    ensures lessons == Series(req, insertAccepted, old(table.nextId), AttemptCount(req.startTime, req.recurringUntil))
    ensures table.rows == old(table.rows) + StoredSeries(lessons, updateAccepted)
    ensures table.nextId == old(table.nextId) + |lessons|
  {
    ghost var firstId := table.nextId;
    ghost var oldRows := table.rows;
    ghost var n := AttemptCount(req.startTime, req.recurringUntil);
    lessons := [];
    var parent: Option<LessonId> := None;
    var currentDate := req.startTime;
    var k: nat := 0;
    while currentDate <= req.recurringUntil
      invariant currentDate == req.startTime + k * WeekMs
      invariant k <= n
      invariant table.Valid()
      invariant lessons == Series(req, insertAccepted, firstId, k)
      invariant parent == if lessons == [] then None else Some(firstId)
      invariant table.nextId == firstId + |lessons|
      invariant table.rows == oldRows + StoredSeries(lessons, updateAccepted)
      decreases req.recurringUntil - currentDate
    {
      AttemptedExactly(req.startTime, req.recurringUntil, k);
      lessons, parent := InsertWeek(table, req, k, parent, insertAccepted, updateAccepted, lessons, oldRows, firstId);
      currentDate := currentDate + WeekMs;
      k := k + 1;
    }
    AttemptedExactly(req.startTime, req.recurringUntil, k);
  }

  /** One pass of the loop: the insert of week `k` and, after the first accepted
      insert, the update that makes that row its own parent. */
  method InsertWeek(table: LessonTable, req: RecurringRequest, k: nat, parent: Option<LessonId>,
                    insertAccepted: nat -> bool, updateAccepted: bool,
                    lessons: seq<Lesson>, ghost oldRows: seq<Lesson>, ghost firstId: LessonId)
    returns (lessons': seq<Lesson>, parent': Option<LessonId>)
    requires table.Valid()
    requires lessons == Series(req, insertAccepted, firstId, k)
    requires parent == if lessons == [] then None else Some(firstId)
    requires table.nextId == firstId + |lessons|
    requires table.rows == oldRows + StoredSeries(lessons, updateAccepted)
    requires forall i :: 0 <= i < |oldRows| ==> oldRows[i].id < firstId
    modifies table
    ensures table.Valid()
    ensures lessons' == Series(req, insertAccepted, firstId, k + 1)
    ensures parent' == if lessons' == [] then None else Some(firstId)
    ensures table.nextId == firstId + |lessons'|
    ensures table.rows == oldRows + StoredSeries(lessons', updateAccepted)
  {
    var rowsBefore := table.rows;
    var r := CreateLesson(table, WeekDraft(req, k, parent), insertAccepted(k));
    lessons', parent' := lessons, parent;
    if r.Some? {
      if parent.None? {
        parent' := Some(r.value.id);
        var _ := UpdateLesson(table, r.value.id, ParentPatch(r.value.id), updateAccepted);
        FirstRowPatched(rowsBefore, r.value);
      } else {
        StoredSeriesAppend(lessons, r.value, updateAccepted);
      }
      lessons' := lessons + [r.value];
    }
  }

  /** The instances of a series: each starts a whole number of weeks after the
      request and no later than the bound, lasts as long as the request, copies
      the request's columns with `is_recurring` set, and the starts increase. */
  lemma SeriesInstances(req: RecurringRequest, accepted: nat -> bool, firstId: LessonId)
    ensures var s := Series(req, accepted, firstId, AttemptCount(req.startTime, req.recurringUntil));
      forall i :: 0 <= i < |s| ==>
        && req.startTime <= s[i].startTime <= req.recurringUntil
        && (s[i].startTime - req.startTime) % WeekMs == 0
        && s[i].endTime - s[i].startTime == req.endTime - req.startTime
        && s[i].id == firstId + i
        && s[i].tutorId == req.tutorId && s[i].studentId == req.studentId
        && s[i].title == req.title && s[i].subject == req.subject
        && s[i].description == req.description && s[i].googleMeetLink == req.googleMeetLink
        && s[i].isRecurring && s[i].status == Scheduled && s[i].recurringUntil == None
  {
    var n := AttemptCount(req.startTime, req.recurringUntil);
    var weeks := SuccessfulWeeks(accepted, n);
    var s := Series(req, accepted, firstId, n);
    SeriesAt(req, accepted, firstId, n);
    forall i | 0 <= i < |s|
      ensures req.startTime <= s[i].startTime <= req.recurringUntil
      ensures (s[i].startTime - req.startTime) % WeekMs == 0
    {
      AttemptedExactly(req.startTime, req.recurringUntil, weeks[i]);
      WholeWeeks(s[i].startTime - req.startTime, weeks[i]);
    }
  }

  /** An offset of k whole weeks is a multiple of a week. */
  lemma WholeWeeks(d: int, k: nat)
    requires d == k * WeekMs
    ensures d % WeekMs == 0 && d >= 0
  {
  }

  /** The returned instances are in increasing start order. */
  lemma SeriesIncreasing(req: RecurringRequest, accepted: nat -> bool, firstId: LessonId, n: nat)
    ensures var s := Series(req, accepted, firstId, n);
      forall i, j :: 0 <= i < j < |s| ==> s[i].startTime < s[j].startTime
  {
    var weeks := SuccessfulWeeks(accepted, n);
    var s := Series(req, accepted, firstId, n);
    SeriesAt(req, accepted, firstId, n);
    forall i, j | 0 <= i < j < |s| ensures s[i].startTime < s[j].startTime {
      assert weeks[i] < weeks[j];
      assert weeks[i] * WeekMs < weeks[j] * WeekMs;
    }
  }

  /** Week k yields an instance exactly when its start is at or before the bound
      and the database accepted its insert: the bound is inclusive, and failed
      weeks are skipped without ending the series. */
  lemma SeriesHoldsExactlyAcceptedWeeks(req: RecurringRequest, accepted: nat -> bool, firstId: LessonId, k: nat)
    ensures var s := Series(req, accepted, firstId, AttemptCount(req.startTime, req.recurringUntil));
      (exists i :: 0 <= i < |s| && s[i].startTime == req.startTime + k * WeekMs)
        <==> req.startTime + k * WeekMs <= req.recurringUntil && accepted(k)
  {
    var n := AttemptCount(req.startTime, req.recurringUntil);
    var s := Series(req, accepted, firstId, n);
    if req.startTime + k * WeekMs <= req.recurringUntil && accepted(k) {
      var i := AcceptedWeekIncluded(req, accepted, firstId, k);
      assert s[i].startTime == req.startTime + k * WeekMs;
    }
    if i :| 0 <= i < |s| && s[i].startTime == req.startTime + k * WeekMs {
      IncludedWeekAccepted(req, accepted, firstId, k, i);
    }
  }

  /** An accepted week at or before the bound has an instance. */
  lemma AcceptedWeekIncluded(req: RecurringRequest, accepted: nat -> bool, firstId: LessonId, k: nat) returns (i: nat)
    requires req.startTime + k * WeekMs <= req.recurringUntil && accepted(k)
    ensures i < |Series(req, accepted, firstId, AttemptCount(req.startTime, req.recurringUntil))|
    ensures Series(req, accepted, firstId, AttemptCount(req.startTime, req.recurringUntil))[i].startTime == req.startTime + k * WeekMs
  {
    var n := AttemptCount(req.startTime, req.recurringUntil);
    var weeks := SuccessfulWeeks(accepted, n);
    AttemptedExactly(req.startTime, req.recurringUntil, k);
    assert k in weeks;
    i :| 0 <= i < |weeks| && weeks[i] == k;
    SeriesAt(req, accepted, firstId, n);
  }

  /** An instance's week was accepted and lies at or before the bound. */
  lemma IncludedWeekAccepted(req: RecurringRequest, accepted: nat -> bool, firstId: LessonId, k: nat, i: nat)
    requires i < |Series(req, accepted, firstId, AttemptCount(req.startTime, req.recurringUntil))|
    requires Series(req, accepted, firstId, AttemptCount(req.startTime, req.recurringUntil))[i].startTime == req.startTime + k * WeekMs
    ensures req.startTime + k * WeekMs <= req.recurringUntil && accepted(k)
  {
    var n := AttemptCount(req.startTime, req.recurringUntil);
    var weeks := SuccessfulWeeks(accepted, n);
    SeriesAt(req, accepted, firstId, n);
    assert weeks[i] == k;
    assert weeks[i] in weeks;
    AttemptedExactly(req.startTime, req.recurringUntil, k);
  }

  /** A start after the bound attempts nothing and returns nothing. */
  lemma SeriesEmptyAfterBound(req: RecurringRequest, accepted: nat -> bool, firstId: LessonId)
    requires req.startTime > req.recurringUntil
    ensures Series(req, accepted, firstId, AttemptCount(req.startTime, req.recurringUntil)) == []
  {
  }

  /** Parent links: the returned first instance still has no parent (it is the
      row the insert returned), every later one has the first id; in the table
      every row of the series has the first id as parent when the update of
      the first row succeeded, and only the first row lacks it otherwise. */
  lemma SeriesParents(req: RecurringRequest, accepted: nat -> bool, firstId: LessonId, n: nat, updated: bool)
    ensures var s := Series(req, accepted, firstId, n);
      && (s != [] ==> s[0].parentLessonId == None && s[0].id == firstId)
      && (forall i :: 0 < i < |s| ==> s[i].parentLessonId == Some(firstId))
      && |StoredSeries(s, updated)| == |s|
      && (forall i :: 0 <= i < |s| ==>
            StoredSeries(s, updated)[i] == (if i == 0 && updated then s[i].(parentLessonId := Some(firstId)) else s[i]))
      && (updated ==> forall i :: 0 <= i < |s| ==> StoredSeries(s, updated)[i].parentLessonId == Some(firstId))
  {
    SeriesAt(req, accepted, firstId, n);
  }

  /** A bound exactly three weeks after the start gives four instances when every
      insert is accepted: the start and the next three weeks. */
  lemma FourWeeksInclusive(req: RecurringRequest, firstId: LessonId)
    requires req.recurringUntil == req.startTime + 3 * WeekMs
    ensures |Series(req, k => true, firstId, AttemptCount(req.startTime, req.recurringUntil))| == 4
  {
    assert AttemptCount(req.startTime, req.recurringUntil) == 4;
    assert SuccessfulWeeks(k => true, 4) == [0, 1, 2, 3];
    SeriesAt(req, k => true, firstId, 4);
  }

  // ---------------------------------------------------------------------------
  // The bound of a series scheduled from a date input

  /** `new Date(recurring_until)` for the scheduling form's date input
      `YYYY-MM-DD` (`day` days after the epoch): midnight UTC of that date. */
  function DateInputBound(day: int): (t: int)
    ensures t / DayMs == day && t % DayMs == 0
  {
    day * DayMs
  }

  /** With the bound as written, a weekly lesson that starts after midnight UTC
      and whose end date is the date of its week `k` gets only weeks 0 to
      k - 1: week k starts after midnight of the end date and is never
      attempted. */
  lemma DateInputBoundDropsEndDate(start: int, k: nat)
    requires start % DayMs > 0
    ensures (start + k * WeekMs) / DayMs == start / DayMs + 7 * k
    ensures AttemptCount(start, DateInputBound(start / DayMs + 7 * k)) == k
  {
    var d := start / DayMs;
    var t := start + k * WeekMs;
    assert start == d * DayMs + start % DayMs;
    assert k * WeekMs == 7 * k * DayMs;
    assert t == (d + 7 * k) * DayMs + start % DayMs;
    var bound := DateInputBound(d + 7 * k);
    AttemptedExactly(start, bound, k);
    if k > 0 {
      AttemptedExactly(start, bound, k - 1);
      assert (k - 1) * WeekMs == k * WeekMs - WeekMs;
    }
  }

  /** The bound that includes the whole end date: its last millisecond (UTC). */
  function DateInputBoundInclusive(day: int): (t: int)
    ensures t / DayMs == day && t % DayMs == DayMs - 1
  {
    day * DayMs + DayMs - 1
  }

  /** With the inclusive bound, week k is attempted exactly when it falls on or
      before the end date. */
  lemma DateInputBoundInclusiveCoversEndDate(start: int, day: int, k: nat)
    ensures k < AttemptCount(start, DateInputBoundInclusive(day)) <==> (start + k * WeekMs) / DayMs <= day
  {
    var t := start + k * WeekMs;
    AttemptedExactly(start, DateInputBoundInclusive(day), k);
    var q := t / DayMs;
    assert t == q * DayMs + t % DayMs;
    if q <= day {
      assert q * DayMs <= day * DayMs;
    } else {
      assert q * DayMs >= (day + 1) * DayMs;
    }
  }

  // ---------------------------------------------------------------------------
  // Reads

  function LessonStartLeq(a: Lesson, b: Lesson): bool {
    a.startTime <= b.startTime
  }

  function TutorIs(tutorId: UserId): Lesson -> bool {
    (l: Lesson) => l.tutorId == tutorId
  }

  function StudentIs(studentId: UserId): Lesson -> bool {
    (l: Lesson) => l.studentId == studentId
  }

  function ViewRows(vs: seq<LessonView>): seq<Lesson> {
    seq(|vs|, i requires 0 <= i < |vs| => vs[i].row)
  }



  /** The join of `getLessonsForTutor`: each lesson with the user whose id is
      its `student_id`. */
  function AttachStudents(data: seq<Lesson>, users: map<UserId, User>, usersOk: bool): (r: seq<LessonView>)
    ensures ViewRows(r) == data
    ensures forall i :: 0 <= i < |r| ==> r[i].tutor == None && r[i].student == UserById(users, usersOk, data[i].studentId)
  {
    if |data| > 0 then
      var found := LookupEach(users, Project(data, (x: Lesson) => x.studentId), usersOk);
      var r := seq(|data|, i requires 0 <= i < |data| => LessonView(data[i], None, found[i]));
      assert ViewRows(r) == data;
      r
    else
      assert ViewRows([]) == data;
      []
  }

  /** The join of `getLessonsForStudent`, attaching each lesson's tutor. */
  function AttachTutors(data: seq<Lesson>, users: map<UserId, User>, usersOk: bool): (r: seq<LessonView>)
    ensures ViewRows(r) == data
    ensures forall i :: 0 <= i < |r| ==> r[i].student == None && r[i].tutor == UserById(users, usersOk, data[i].tutorId)
  {
    if |data| > 0 then
      var found := LookupEach(users, Project(data, (x: Lesson) => x.tutorId), usersOk);
      var r := seq(|data|, i requires 0 <= i < |data| => LessonView(data[i], found[i], None));
      assert ViewRows(r) == data;
      r
    else
      assert ViewRows([]) == data;
      []
  }

  /** `getLessonsForTutor`: [] on error; otherwise the tutor's lessons ordered by
      start time, each with the user whose id is its `student_id` attached
      (absent when there is none or the lookup failed). */
  function LessonsForTutor(rows: seq<Lesson>, users: map<UserId, User>, tutorId: UserId, fetchOk: bool, usersOk: bool)
    : (r: seq<LessonView>)
    ensures !fetchOk ==> r == []
    ensures fetchOk ==> multiset(ViewRows(r)) == multiset(Filter(rows, TutorIs(tutorId)))
    ensures SortedBy(ViewRows(r), LessonStartLeq)
    ensures forall i :: 0 <= i < |r| ==>
      && r[i].row.tutorId == tutorId
      && r[i].tutor == None
      && r[i].student == UserById(users, usersOk, r[i].row.studentId)
  {
    if !fetchOk then [] else AttachStudents(SelectOrdered(rows, TutorIs(tutorId), LessonStartLeq), users, usersOk)
  }

  /** `getLessonsForStudent`: the same read for a student, attaching the tutor. */
  function LessonsForStudent(rows: seq<Lesson>, users: map<UserId, User>, studentId: UserId, fetchOk: bool, usersOk: bool)
    : (r: seq<LessonView>)
    ensures !fetchOk ==> r == []
    ensures fetchOk ==> multiset(ViewRows(r)) == multiset(Filter(rows, StudentIs(studentId)))
    ensures SortedBy(ViewRows(r), LessonStartLeq)
    ensures forall i :: 0 <= i < |r| ==>
      && r[i].row.studentId == studentId
      && r[i].student == None
      && r[i].tutor == UserById(users, usersOk, r[i].row.tutorId)
  {
    if !fetchOk then [] else AttachTutors(SelectOrdered(rows, StudentIs(studentId), LessonStartLeq), users, usersOk)
  }
}
