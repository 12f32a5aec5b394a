/** Tutors' weekly availability (src/lib/db/availability.ts): replacing one
    tutor's windows, reading them in order, and finding the tutors whose window
    covers a requested time on a day. Times are minutes since midnight. */
module Availability {
  import opened Types
  import opened Store
  import opened Query

  function OwnedBy(tutorId: UserId): Availability -> bool {
    (a: Availability) => a.tutorId == tutorId
  }

  function NotOwnedBy(tutorId: UserId): Availability -> bool {
    (a: Availability) => a.tutorId != tutorId
  }

  /** The window of a row. */
  function SlotOf(a: Availability): Slot {
    Slot(a.dayOfWeek, a.startTime, a.endTime)
  }

  /** The rows the insert of `availability.map(...)` stores: every submitted
      window tagged with the tutor, in order, with ids from `firstId`. */
  function Tagged(tutorId: UserId, slots: seq<Slot>, firstId: AvailabilityId): (r: seq<Availability>)
    ensures |r| == |slots|
    ensures forall i :: 0 <= i < |r| ==> SlotOf(r[i]) == slots[i] && r[i].tutorId == tutorId && r[i].id == firstId + i
  {
    seq(|slots|, i requires 0 <= i < |slots| =>
      Availability(firstId + i, tutorId, slots[i].dayOfWeek, slots[i].startTime, slots[i].endTime))
  }

  /** `setTutorAvailability`: delete the tutor's rows (an error is ignored),
      then, when windows were submitted, insert them in one batch. The result
      is false exactly when there was a batch and its insert failed. */
  method SetTutorAvailability(table: AvailabilityTable, tutorId: UserId, slots: seq<Slot>, deleteOk: bool, insertOk: bool)
    returns (ok: bool)
    requires table.Valid()
    modifies table
    ensures table.Valid()
    ensures ok == (|slots| == 0 || insertOk)
    ensures table.rows ==
      (if deleteOk then Filter(old(table.rows), NotOwnedBy(tutorId)) else old(table.rows))
      + (if |slots| > 0 && insertOk then Tagged(tutorId, slots, old(table.nextId)) else [])
    ensures table.nextId == old(table.nextId) + (if |slots| > 0 && insertOk then |slots| else 0)
  {
    if deleteOk {
      table.rows := Filter(table.rows, NotOwnedBy(tutorId));
    }
    if |slots| > 0 {
      if !insertOk {
        assert table.rows == table.rows + [];
        return false;
      }
      table.rows := table.rows + Tagged(tutorId, slots, table.nextId);
      table.nextId := table.nextId + |slots|;
    } else {
      assert table.rows == table.rows + [];
    }
    ok := true;
  }

  /** After a replacement whose delete and insert succeeded, the tutor's rows
      are exactly the submitted windows, and every other tutor's rows are the
      rows they had. */
  lemma ReplacementExact(rows: seq<Availability>, tutorId: UserId, slots: seq<Slot>, firstId: AvailabilityId, other: UserId)
    requires other != tutorId
    ensures var after := Filter(rows, NotOwnedBy(tutorId)) + Tagged(tutorId, slots, firstId);
      && Filter(after, OwnedBy(tutorId)) == Tagged(tutorId, slots, firstId)
      && Filter(after, OwnedBy(other)) == Filter(rows, OwnedBy(other))
  {
    var kept := Filter(rows, NotOwnedBy(tutorId));
    var added := Tagged(tutorId, slots, firstId);
    FilterConcat(kept, added, OwnedBy(tutorId));
    FilterNone(kept, OwnedBy(tutorId));
    FilterAll(added, OwnedBy(tutorId));
    FilterConcat(kept, added, OwnedBy(other));
    FilterNone(added, OwnedBy(other));
    FilterNested(rows, NotOwnedBy(tutorId), OwnedBy(other));
  }

  /** An empty submission with a successful delete leaves the tutor no rows. */
  lemma EmptySubmissionClears(rows: seq<Availability>, tutorId: UserId)
    ensures Filter(Filter(rows, NotOwnedBy(tutorId)), OwnedBy(tutorId)) == []
  {
    FilterNone(Filter(rows, NotOwnedBy(tutorId)), OwnedBy(tutorId));
  }

  /** When the delete fails but the insert succeeds, the tutor keeps the old
      rows and gets the new ones after them. */
  lemma FailedDeleteKeepsOldRows(rows: seq<Availability>, tutorId: UserId, slots: seq<Slot>, firstId: AvailabilityId)
    ensures Filter(rows + Tagged(tutorId, slots, firstId), OwnedBy(tutorId))
         == Filter(rows, OwnedBy(tutorId)) + Tagged(tutorId, slots, firstId)
  {
    FilterConcat(rows, Tagged(tutorId, slots, firstId), OwnedBy(tutorId));
    FilterAll(Tagged(tutorId, slots, firstId), OwnedBy(tutorId));
  }

  // ---------------------------------------------------------------------------
  // Reads

  /** `order('day_of_week').order('start_time')`, both ascending. */
  function DayThenStart(a: Availability, b: Availability): bool {
    a.dayOfWeek < b.dayOfWeek || (a.dayOfWeek == b.dayOfWeek && a.startTime <= b.startTime)
  }

  /** `getTutorAvailability`: [] on error; otherwise the tutor's rows, all of
      them, ordered by day and then start time. */
  function TutorAvailability(rows: seq<Availability>, tutorId: UserId, fetchOk: bool): (r: seq<Availability>)
    ensures !fetchOk ==> r == []
    ensures fetchOk ==> multiset(r) == multiset(Filter(rows, OwnedBy(tutorId)))
    ensures forall i :: 0 <= i < |r| ==> r[i].tutorId == tutorId && r[i] in rows
    ensures forall i :: 0 < i < |r| ==>
      r[i - 1].dayOfWeek < r[i].dayOfWeek || (r[i - 1].dayOfWeek == r[i].dayOfWeek && r[i - 1].startTime <= r[i].startTime)
  {
    if !fetchOk then []
    else
      assert Total(DayThenStart);
      var r := SelectOrdered(rows, OwnedBy(tutorId), DayThenStart);
      assert SortedBy(r, DayThenStart);
      r
  }

  /** The window `a` covers `start`–`end` on `day`. */
  function Covers(day: int, start: int, end: int): Availability -> bool {
    (a: Availability) => a.dayOfWeek == day && a.startTime <= start && a.endTime >= end
  }

  /** `data.map(item => item.tutor_id)` over the rows the query selects: the
      tutor of every covering row, in row order. */
  function CoveringTutors(rows: seq<Availability>, day: int, start: int, end: int): (ids: seq<UserId>)
    ensures forall t :: t in ids <==>
      exists i :: 0 <= i < |rows| && rows[i].tutorId == t && Covers(day, start, end)(rows[i])
    decreases |rows|
  {
    if rows == [] then []
    else
      var rest := CoveringTutors(rows[1..], day, start, end);
      var ids := (if Covers(day, start, end)(rows[0]) then [rows[0].tutorId] else []) + rest;
      forall t ensures t in ids <==> exists i :: 0 <= i < |rows| && rows[i].tutorId == t && Covers(day, start, end)(rows[i]) {
        if i :| 0 <= i < |rows| && rows[i].tutorId == t && Covers(day, start, end)(rows[i]) {
          if i > 0 {
            assert rows[1..][i - 1] == rows[i];
          }
        }
        if t in rest {
          var k :| 0 <= k < |rows[1..]| && rows[1..][k].tutorId == t && Covers(day, start, end)(rows[1..][k]);
          assert rows[k + 1] == rows[1..][k];
        }
      }
      ids
  }

  /** `getAvailableTutorsForDay`: [] on error; otherwise every tutor with a
      window on that day starting no later and ending no earlier than the
      requested times, each once. */
  function AvailableTutorsForDay(rows: seq<Availability>, day: int, start: int, end: int, fetchOk: bool): (r: seq<UserId>)
    ensures !fetchOk ==> r == []
    ensures fetchOk ==> forall t :: t in r <==>
      exists i :: 0 <= i < |rows| && rows[i].tutorId == t
        && rows[i].dayOfWeek == day && rows[i].startTime <= start && rows[i].endTime >= end
    ensures NoDuplicates(r)
  {
    if !fetchOk then []
    else
      var r := Dedup(CoveringTutors(rows, day, start, end));
      r
  }
}
