/** The hosted database as the core sees it: one object per table, holding its
    rows, and for the tables whose ids the database generates the next id it
    will hand out. The operations that change a table live in the module of the
    source file that performs them; every call into the database takes the
    database's answer (accepted or failed) as a parameter. */
module Store {
  import opened Types
  import opened Query

  /** The `lessons` table, rows in insertion order. */
  class LessonTable {
    var rows: seq<Lesson>
    var nextId: LessonId

    /** Every stored id was handed out before `nextId`, so `nextId` is fresh. */
    ghost predicate Valid()
      reads this
    {
      forall i :: 0 <= i < |rows| ==> rows[i].id < nextId
    }

    constructor ()
      ensures Valid() && rows == [] && nextId == 0
    {
      rows := [];
      nextId := 0;
    }
  }

  /** The row the database stores for an inserted draft: a fresh id, the default
      status `scheduled` and no notes. */
  function StoredLesson(d: LessonDraft, id: LessonId): (l: Lesson)
    ensures l.id == id && l.status == Scheduled
  {
    Lesson(id, d.tutorId, d.studentId, d.title, d.subject, d.startTime, d.endTime,
           Scheduled, d.description, None, d.googleMeetLink, d.isRecurring,
           d.recurringUntil, d.parentLessonId)
  }

  /** The `users` table, keyed by its primary key `id`. */
  class UserTable {
    var rows: map<UserId, User>

    ghost predicate Valid()
      reads this
    {
      forall id :: id in rows ==> rows[id].id == id
    }

    constructor ()
      ensures Valid() && rows == map[]
    {
      rows := map[];
    }
  }

  /** The user whose id is `id`, as the columns `id, email, profile_data`;
      nothing when there is none or when the query on `users` failed. */
  function UserById(users: map<UserId, User>, queryOk: bool, id: UserId): (r: Option<UserSummary>)
    ensures r.Some? <==> queryOk && id in users
    ensures r.Some? ==> r.value.email == users[id].email && r.value.profileData == users[id].profileData
  {
    if queryOk && id in users then Some(Summary(users[id])) else None
  }

  /** `from('users').select('id, email, profile_data').in('id', ids)`: the
      fetched records keyed by id, or nothing when the query failed. */
  function SelectUsersIn(users: map<UserId, User>, ids: seq<UserId>, queryOk: bool): Option<map<UserId, UserSummary>> {
    if queryOk then Some(map id | id in users && id in ids :: Summary(users[id])) else None
  }

  /** `fetched?.find(u => u.id === id)`. */
  function FindUser(fetched: Option<map<UserId, UserSummary>>, id: UserId): Option<UserSummary> {
    if fetched.Some? && id in fetched.value then Some(fetched.value[id]) else None
  }

  /** Looking a user up among those fetched for a list of ids that contains its
      id finds the same record as looking it up in the whole table. */
  lemma FindAmongFetched(users: map<UserId, User>, ids: seq<UserId>, queryOk: bool, id: UserId)
    requires id in ids
    ensures FindUser(SelectUsersIn(users, ids, queryOk), id) == UserById(users, queryOk, id)
  {
  }

  /** The join of the read functions: one `in('id', ...)` query for the
      distinct keys, then, for every key in order, the fetched record with
      that id. Each entry is what looking that key up in the table gives. */
  function LookupEach(users: map<UserId, User>, keys: seq<UserId>, queryOk: bool): (r: seq<Option<UserSummary>>)
    ensures |r| == |keys|
    ensures forall i :: 0 <= i < |keys| ==> r[i] == UserById(users, queryOk, keys[i])
  {
    var fetched := SelectUsersIn(users, Dedup(keys), queryOk);
    forall i | 0 <= i < |keys| ensures FindUser(fetched, keys[i]) == UserById(users, queryOk, keys[i]) {
      assert keys[i] in Dedup(keys);
      FindAmongFetched(users, Dedup(keys), queryOk, keys[i]);
    }
    seq(|keys|, i requires 0 <= i < |keys| => FindUser(fetched, keys[i]))
  }

  /** The `tutor_student_matches` table, rows in insertion order. */
  class MatchTable {
    var rows: seq<Match>
    var nextId: MatchId

    ghost predicate Valid()
      reads this
    {
      forall i :: 0 <= i < |rows| ==> rows[i].id < nextId
    }

    constructor ()
      ensures Valid() && rows == [] && nextId == 0
    {
      rows := [];
      nextId := 0;
    }
  }

  /** The `tutor_availability` table, rows in insertion order. */
  class AvailabilityTable {
    var rows: seq<Availability>
    var nextId: AvailabilityId

    ghost predicate Valid()
      reads this
    {
      forall i :: 0 <= i < |rows| ==> rows[i].id < nextId
    }

    constructor ()
      ensures Valid() && rows == [] && nextId == 0
    {
      rows := [];
      nextId := 0;
    }
  }
}
