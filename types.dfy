/** Row and value types of the tutoring dashboard's database (src/types/database.ts).
    Identifiers the database generates (lesson, match and availability ids) are
    natural numbers; user ids come from the identity provider and are strings.
    Timestamps are milliseconds since the epoch; availability times are minutes
    since midnight. */
module Types {

  datatype Option<+T> = None | Some(value: T) {
    /** The value, or `default` when there is none (JavaScript's `??`). */
    function GetOr(default: T): T {
      match this
      case Some(v) => v
      case None => default
    }
  }

  /** JavaScript truthiness of an optional string: present and not empty. */
  predicate Truthy(s: Option<string>) {
    s.Some? && s.value != ""
  }

  type UserId = string
  type LessonId = nat
  type MatchId = nat
  type AvailabilityId = nat

  /** The four roles of a user record. */
  datatype Role = Student | Tutor | Parent | Admin

  /** The string the database and the identity provider use for a role. */
  function RoleName(r: Role): string {
    match r
    case Student => "student"
    case Tutor => "tutor"
    case Parent => "parent"
    case Admin => "admin"
  }

  /** The role a string names, if any. */
  function ParseRole(s: string): (r: Option<Role>)
    ensures r.Some? ==> RoleName(r.value) == s
    ensures r.None? ==> forall role: Role :: RoleName(role) != s
  {
    if s == "student" then Some(Student)
    else if s == "tutor" then Some(Tutor)
    else if s == "parent" then Some(Parent)
    else if s == "admin" then Some(Admin)
    else None
  }

  datatype LessonStatus = Scheduled | InProgress | Completed | Cancelled

  /** `profile_data`: the optional name and phone fields. */
  datatype Profile = Profile(firstName: Option<string>, lastName: Option<string>, phone: Option<string>)

  /** The JSON object `{}`. */
  const EmptyProfile := Profile(None, None, None)

  /** A row of the `users` table. An empty `role` stands for a missing one. */
  datatype User = User(id: UserId, email: string, role: string, profileData: Profile)

  /** The columns `id, email, profile_data` that the read functions select from `users`. */
  datatype UserSummary = UserSummary(id: UserId, email: string, profileData: Profile)

  function Summary(u: User): UserSummary {
    UserSummary(u.id, u.email, u.profileData)
  }

  /** A row of the `lessons` table. */
  datatype Lesson = Lesson(
    id: LessonId,
    tutorId: UserId,
    studentId: UserId,
    title: string,
    subject: string,
    startTime: int,
    endTime: int,
    status: LessonStatus,
    description: Option<string>,
    notes: Option<string>,
    googleMeetLink: Option<string>,
    isRecurring: bool,
    recurringUntil: Option<int>,
    parentLessonId: Option<LessonId>)

  /** The columns a client supplies when it inserts a lesson. */
  datatype LessonDraft = LessonDraft(
    tutorId: UserId,
    studentId: UserId,
    title: string,
    subject: string,
    startTime: int,
    endTime: int,
    description: Option<string>,
    isRecurring: bool,
    recurringUntil: Option<int>,
    googleMeetLink: Option<string>,
    parentLessonId: Option<LessonId>)

  /** A lesson as the read functions return it, with the joined user records. */
  datatype LessonView = LessonView(row: Lesson, tutor: Option<UserSummary>, student: Option<UserSummary>)

  /** A row of the `tutor_student_matches` table. */
  datatype Match = Match(id: MatchId, tutorId: UserId, studentId: UserId, createdAt: int)

  /** A match as the registry returns it, with the joined user records. */
  datatype MatchView = MatchView(row: Match, tutor: Option<UserSummary>, student: Option<UserSummary>)

  /** A row of the `tutor_availability` table; `dayOfWeek` 0 is Sunday. */
  datatype Availability = Availability(id: AvailabilityId, tutorId: UserId, dayOfWeek: int, startTime: int, endTime: int)

  /** One weekly window as a tutor submits it. */
  datatype Slot = Slot(dayOfWeek: int, startTime: int, endTime: int)
}
