/** The tutor–student match registry (src/lib/db/matches.ts): creating a match
    after checking that the pair is not registered, deleting one by id, and the
    three reads that attach the matched users' records. */
module Matches {
  import opened Types
  import opened Store
  import opened Query

  function PairIs(tutorId: UserId, studentId: UserId): Match -> bool {
    (m: Match) => m.tutorId == tutorId && m.studentId == studentId
  }

  /** How many rows register the pair. */
  function PairCount(rows: seq<Match>, tutorId: UserId, studentId: UserId): nat {
    |Filter(rows, PairIs(tutorId, studentId))|
  }

  /** `maybeSingle()` on the pair lookup: the row when exactly one row has the
      pair; nothing when none has it, when several have it (an error), or when
      the query failed. */
  function ExistingMatch(rows: seq<Match>, tutorId: UserId, studentId: UserId, lookupOk: bool): (r: Option<Match>)
    ensures r.Some? <==> lookupOk && PairCount(rows, tutorId, studentId) == 1
    ensures r.Some? ==> r.value in rows && r.value.tutorId == tutorId && r.value.studentId == studentId
  {
    var found := Filter(rows, PairIs(tutorId, studentId));
    if lookupOk && |found| == 1 then
      assert found[0] in found;
      Some(found[0])
    else None
  }

  /** The row an accepted insert stores: a fresh id and the insert time. */
  function NewMatch(id: MatchId, tutorId: UserId, studentId: UserId, now: int): Match {
    Match(id, tutorId, studentId, now)
  }

  /** `createMatch`: null when the lookup finds the pair; otherwise one insert,
      null when it fails, and else the stored row with the tutor's and the
      student's records, each looked up by id on its own. `now` is the
      database's `created_at` for the insert. */
  method CreateMatch(table: MatchTable, users: map<UserId, User>, tutorId: UserId, studentId: UserId, now: int,
                     lookupOk: bool, insertOk: bool, tutorOk: bool, studentOk: bool)
    returns (r: Option<MatchView>)
    requires table.Valid()
    modifies table
    ensures table.Valid()
    ensures table.rows == AfterCreate(old(table.rows), old(table.nextId), tutorId, studentId, now, lookupOk, insertOk)
    ensures var inserted := ExistingMatch(old(table.rows), tutorId, studentId, lookupOk).None? && insertOk;
      && table.nextId == (if inserted then old(table.nextId) + 1 else old(table.nextId))
      && r == (if inserted then Some(MatchView(NewMatch(old(table.nextId), tutorId, studentId, now),
                                               UserById(users, tutorOk, tutorId), UserById(users, studentOk, studentId)))
               else None)
  {
    var existing := ExistingMatch(table.rows, tutorId, studentId, lookupOk);
    if existing.Some? {
      return None;
    }
    if !insertOk {
      return None;
    }
    var row := NewMatch(table.nextId, tutorId, studentId, now);
    table.rows := table.rows + [row];
    table.nextId := table.nextId + 1;
    var tutor := UserById(users, tutorOk, tutorId);
    var student := UserById(users, studentOk, studentId);
    r := Some(MatchView(row, tutor, student));
  }

  function IdIsNot(matchId: MatchId): Match -> bool {
    (m: Match) => m.id != matchId
  }

  /** `deleteMatch`: the rows with that id are removed and the others kept in
      order; false exactly when the database reports an error, which changes
      nothing. */
  method DeleteMatch(table: MatchTable, matchId: MatchId, accepted: bool) returns (ok: bool)
    requires table.Valid()
    modifies table
    ensures table.Valid()
    ensures ok == accepted
    ensures table.nextId == old(table.nextId)
    ensures table.rows == if accepted then Filter(old(table.rows), IdIsNot(matchId)) else old(table.rows)
  {
    if accepted {
      table.rows := Filter(table.rows, IdIsNot(matchId));
    }
    ok := accepted;
  }

  // ---------------------------------------------------------------------------
  // Uniqueness of pairs

  /** No pair is registered twice. */
  ghost predicate UniquePairs(rows: seq<Match>) {
    forall tutorId, studentId :: PairCount(rows, tutorId, studentId) <= 1
  }

  /** A pair is counted exactly when some row registers it. */
  lemma PairCounted(rows: seq<Match>, tutorId: UserId, studentId: UserId)
    ensures PairCount(rows, tutorId, studentId) > 0 <==>
      exists i :: 0 <= i < |rows| && rows[i].tutorId == tutorId && rows[i].studentId == studentId
  {
    var found := Filter(rows, PairIs(tutorId, studentId));
    if i :| 0 <= i < |rows| && rows[i].tutorId == tutorId && rows[i].studentId == studentId {
      assert rows[i] in found;
    }
    if |found| > 0 {
      assert found[0] in rows;
    }
  }

  /** With unique pairs, the lookup finds a pair exactly when a row has it. */
  lemma UniquePairFound(rows: seq<Match>, tutorId: UserId, studentId: UserId)
    requires UniquePairs(rows)
    ensures ExistingMatch(rows, tutorId, studentId, true).Some? <==>
      exists i :: 0 <= i < |rows| && rows[i].tutorId == tutorId && rows[i].studentId == studentId
  {
    PairCounted(rows, tutorId, studentId);
  }

  /** The rows after a create attempt, as `CreateMatch` leaves them. */
  function AfterCreate(rows: seq<Match>, id: MatchId, tutorId: UserId, studentId: UserId, now: int, lookupOk: bool, insertOk: bool)
    : (r: seq<Match>)
    ensures r == rows || r == rows + [NewMatch(id, tutorId, studentId, now)]
    ensures r != rows <==> ExistingMatch(rows, tutorId, studentId, lookupOk).None? && insertOk
  {
    if ExistingMatch(rows, tutorId, studentId, lookupOk).None? && insertOk
    then rows + [NewMatch(id, tutorId, studentId, now)] else rows
  }

  /** While the lookup works, creating a match keeps pairs unique, and an
      already registered pair is refused without a change. */
  lemma CreateKeepsPairsUnique(rows: seq<Match>, id: MatchId, tutorId: UserId, studentId: UserId, now: int, insertOk: bool)
    requires UniquePairs(rows)
    ensures UniquePairs(AfterCreate(rows, id, tutorId, studentId, now, true, insertOk))
    ensures (exists i :: 0 <= i < |rows| && rows[i].tutorId == tutorId && rows[i].studentId == studentId) ==>
      AfterCreate(rows, id, tutorId, studentId, now, true, insertOk) == rows
  {
    PairCounted(rows, tutorId, studentId);
    var added := NewMatch(id, tutorId, studentId, now);
    if ExistingMatch(rows, tutorId, studentId, true).None? && insertOk {
      assert PairCount(rows, tutorId, studentId) == 0;
      forall t, s ensures PairCount(rows + [added], t, s) <= 1 {
        PairCountAppend(rows, added, t, s);
      }
    }
  }

  /** Appending a row adds one to the count of its pair and nothing to others. */
  lemma PairCountAppend(rows: seq<Match>, m: Match, tutorId: UserId, studentId: UserId)
    ensures PairCount(rows + [m], tutorId, studentId)
         == PairCount(rows, tutorId, studentId) + (if m.tutorId == tutorId && m.studentId == studentId then 1 else 0)
  {
    FilterConcat(rows, [m], PairIs(tutorId, studentId));
    assert [m][1..] == [];
  }

  /** Two identical create calls, with the lookup working, leave the pair
      registered once: the second call finds what the first stored. */
  lemma CreateTwiceStoresOnce(rows: seq<Match>, id1: MatchId, id2: MatchId, tutorId: UserId, studentId: UserId,
                              now1: int, now2: int, insertOk2: bool)
    requires PairCount(rows, tutorId, studentId) <= 1
    ensures var once := AfterCreate(rows, id1, tutorId, studentId, now1, true, true);
      && AfterCreate(once, id2, tutorId, studentId, now2, true, insertOk2) == once
      && PairCount(once, tutorId, studentId) == 1
  {
    if PairCount(rows, tutorId, studentId) == 0 {
      PairCountAppend(rows, NewMatch(id1, tutorId, studentId, now1), tutorId, studentId);
    }
  }

  /** A pair registered twice is no longer found by the lookup, so every
      further create for it inserts another row. */
  lemma DuplicatesDefeatTheCheck(rows: seq<Match>, id: MatchId, tutorId: UserId, studentId: UserId, now: int)
    requires PairCount(rows, tutorId, studentId) >= 2
    ensures AfterCreate(rows, id, tutorId, studentId, now, true, true) == rows + [NewMatch(id, tutorId, studentId, now)]
  {
  }

  /** A failed lookup lets a registered pair be inserted again. */
  lemma FailedLookupDuplicates(id: MatchId, tutorId: UserId, studentId: UserId, now: int)
    ensures var rows := [NewMatch(0, tutorId, studentId, 0)];
      && UniquePairs(rows)
      && !UniquePairs(AfterCreate(rows, id, tutorId, studentId, now, false, true))
  {
    var rows := [NewMatch(0, tutorId, studentId, 0)];
    var after := AfterCreate(rows, id, tutorId, studentId, now, false, true);
    PairCountAppend(rows, NewMatch(id, tutorId, studentId, now), tutorId, studentId);
    FilterAll(rows, PairIs(tutorId, studentId));
    assert PairCount(after, tutorId, studentId) == 2;
  }

  // ---------------------------------------------------------------------------
  // Reads

  function MatchRows(vs: seq<MatchView>): seq<Match> {
    seq(|vs|, i requires 0 <= i < |vs| => vs[i].row)
  }

  function TutorIs(tutorId: UserId): Match -> bool {
    (m: Match) => m.tutorId == tutorId
  }

  function StudentIs(studentId: UserId): Match -> bool {
    (m: Match) => m.studentId == studentId
  }



  /** Each match with the records fetched for its tutor (when `withTutors`)
      and its student (when `withStudents`). */
  function Annotate(data: seq<Match>, users: map<UserId, User>, withTutors: bool, tutorsOk: bool,
                    withStudents: bool, studentsOk: bool): (r: seq<MatchView>)
    ensures MatchRows(r) == data
    ensures forall i :: 0 <= i < |r| ==>
      && r[i].tutor == (if withTutors then UserById(users, tutorsOk, data[i].tutorId) else None)
      && r[i].student == (if withStudents then UserById(users, studentsOk, data[i].studentId) else None)
  {
    var tutors := LookupEach(users, Project(data, (x: Match) => x.tutorId), tutorsOk);
    var students := LookupEach(users, Project(data, (x: Match) => x.studentId), studentsOk);
    var r := seq(|data|, i requires 0 <= i < |data| =>
      MatchView(data[i], if withTutors then tutors[i] else None, if withStudents then students[i] else None));
    assert MatchRows(r) == data;
    r
  }

  /** `getTutorMatches`: [] on error; otherwise the tutor's matches in table
      order, each with the record of its student. */
  function TutorMatches(rows: seq<Match>, users: map<UserId, User>, tutorId: UserId, fetchOk: bool, studentsOk: bool)
    : (r: seq<MatchView>)
    ensures !fetchOk ==> r == []
    ensures fetchOk ==> MatchRows(r) == Filter(rows, TutorIs(tutorId))
    ensures forall i :: 0 <= i < |r| ==>
      && r[i].row.tutorId == tutorId
      && r[i].tutor == None
      && r[i].student == UserById(users, studentsOk, r[i].row.studentId)
  {
    if !fetchOk then []
    else
      var data := Filter(rows, TutorIs(tutorId));
      if |data| > 0 then Annotate(data, users, false, false, true, studentsOk)
      else
        assert MatchRows([]) == data;
        []
  }

  /** `getStudentMatches`: the same for a student, with each tutor's record. */
  function StudentMatches(rows: seq<Match>, users: map<UserId, User>, studentId: UserId, fetchOk: bool, tutorsOk: bool)
    : (r: seq<MatchView>)
    ensures !fetchOk ==> r == []
    ensures fetchOk ==> MatchRows(r) == Filter(rows, StudentIs(studentId))
    ensures forall i :: 0 <= i < |r| ==>
      && r[i].row.studentId == studentId
      && r[i].student == None
      && r[i].tutor == UserById(users, tutorsOk, r[i].row.tutorId)
  {
    if !fetchOk then []
    else
      var data := Filter(rows, StudentIs(studentId));
      if |data| > 0 then Annotate(data, users, true, tutorsOk, false, false)
      else
        assert MatchRows([]) == data;
        []
  }

  /** `order('created_at', { ascending: false })`. */
  function NewerFirst(a: Match, b: Match): bool {
    a.createdAt >= b.createdAt
  }

  function Everything(m: Match): bool {
    true
  }

  /** The rows of `getAllMatches` before the join: all of them, newest first. */
  function NewestFirst(rows: seq<Match>): (r: seq<Match>)
    ensures multiset(r) == multiset(rows)
    ensures forall i :: 0 < i < |r| ==> r[i - 1].createdAt >= r[i].createdAt
  {
    assert Total(NewerFirst);
    var r := SelectOrdered(rows, Everything, NewerFirst);
    FilterAll(rows, Everything);
    assert SortedBy(r, NewerFirst);
    r
  }

  /** `getAllMatches`: [] on error; otherwise every match, newest first, with
      both users' records. */
  function AllMatches(rows: seq<Match>, users: map<UserId, User>, fetchOk: bool, tutorsOk: bool, studentsOk: bool)
    : (r: seq<MatchView>)
    ensures !fetchOk ==> r == []
    ensures fetchOk ==> MatchRows(r) == NewestFirst(rows)
    ensures forall i :: 0 <= i < |r| ==>
      && r[i].tutor == UserById(users, tutorsOk, r[i].row.tutorId)
      && r[i].student == UserById(users, studentsOk, r[i].row.studentId)
  {
    if !fetchOk then []
    else
      var data := NewestFirst(rows);
      if |data| > 0 then Annotate(data, users, true, tutorsOk, true, studentsOk)
      else
        assert MatchRows([]) == data;
        []
  }
}
