/** The email-confirmation endpoint (`GET` in src/app/auth/confirm/route.ts):
    it checks the link's parameters, verifies the one-time token with the auth
    service, turns a verification error into a login redirect, and makes sure
    the confirmed account has a record with a role in the `users` table before
    redirecting to `next`. The auth service's answer and the database's answers
    are inputs. */
module EmailConfirm {
  import opened Types
  import opened Store
  import opened UriEncoding

  /** The query parameters `token_hash`, `type` and `next`; `None` when absent. */
  datatype Params = Params(tokenHash: Option<string>, otpType: Option<string>, next: Option<string>)

  /** The confirmed account as the auth service returns it: the role and the
      profile may be in `user_metadata` or in `raw_user_meta_data`. */
  datatype AuthUser = AuthUser(
    id: UserId,
    email: string,
    metadataRole: Option<string>,
    rawMetadataRole: Option<string>,
    metadataProfile: Option<Profile>,
    rawMetadataProfile: Option<Profile>)

  /** A thrown value: an `Error` with its message, or anything else. */
  datatype Thrown = ErrorInstance(message: string) | OtherValue

  /** The outcome of `verifyOtp`: it threw, returned an error carrying an
      optional message, or returned data with or without a user. */
  datatype VerifyAnswer = Threw(thrown: Thrown) | Failed(message: Option<string>) | Verified(user: Option<AuthUser>)

  const ErrorPrefix: string := "/login?error="
  const MissingParams: string := "/login?error=Missing confirmation parameters"
  const ExpiredLink: string := "/login?error=Confirmation link has expired. Please request a new one."
  const InvalidLink: string := "/login?error=Invalid or already used confirmation link."
  const NoUserData: string := "/login?error=Confirmation failed: No user data"

  /** `needle` occurs in `s` at position `i`. */
  predicate OccursAt(s: string, needle: string, i: nat) {
    i + |needle| <= |s| && s[i..i + |needle|] == needle
  }

  /** `s.includes(needle)`. */
  predicate Contains(s: string, needle: string) {
    exists i: nat :: i <= |s| && OccursAt(s, needle, i)
  }

  /** `message?.includes(needle)`: false when there is no message. */
  predicate Mentions(message: Option<string>, needle: string) {
    message.Some? && Contains(message.value, needle)
  }

  /** The redirect that carries a message in the `error` parameter. */
  function ErrorLocation(message: string): (loc: string)
    ensures |loc| >= |ErrorPrefix| && loc[..|ErrorPrefix|] == ErrorPrefix
    ensures DecodeURIComponent(loc[|ErrorPrefix|..]) == Some(message)
    ensures forall i :: |ErrorPrefix| <= i < |loc| ==> loc[i] != ' '
  {
    PrefixedEncoding(message);
    ErrorPrefix + EncodeURIComponent(message)
  }

  lemma PrefixedEncoding(message: string)
    ensures var loc := ErrorPrefix + EncodeURIComponent(message);
      && loc[..|ErrorPrefix|] == ErrorPrefix
      && DecodeURIComponent(loc[|ErrorPrefix|..]) == Some(message)
      && forall i :: |ErrorPrefix| <= i < |loc| ==> loc[i] != ' '
  {
    var enc := EncodeURIComponent(message);
    var loc := ErrorPrefix + enc;
    DecodeEncode(message);
    assert loc[|ErrorPrefix|..] == enc;
    forall i | |ErrorPrefix| <= i < |loc| ensures loc[i] != ' ' {
      assert loc[i] == enc[i - |ErrorPrefix|];
      assert enc[i - |ErrorPrefix|] in enc;
    }
  }

  /** How a verification error is classified: an expired link, an invalid or
      used link, or any other error with the text to show. */
  datatype OtpError = Expired | Invalid | Other(text: string)

  /** The classification of route.ts: "expired" (with "token has expired",
      which contains it) is tested first, then "invalid" and "already been
      used"; any other error shows its message, or `Confirmation failed` when
      it has none or an empty one. The tests are case-sensitive. */
  function ClassifyOtpError(message: Option<string>): (e: OtpError)
    ensures e == Expired <==> Mentions(message, "expired")
    ensures e == Invalid <==>
      !Mentions(message, "expired") && (Mentions(message, "invalid") || Mentions(message, "already been used"))
    ensures e.Other? ==> e.text == if Truthy(message) then message.value else "Confirmation failed"
  {
    if Mentions(message, "token has expired") || Mentions(message, "expired") then
      MentionsWithin(message, "token has expired", "expired", 10);
      Expired
    else if Mentions(message, "invalid") || Mentions(message, "already been used") then Invalid
    else Other(if Truthy(message) then message.value else "Confirmation failed")
  }

  /** The redirect passed to `new URL` for a classified error: the two fixed
      links, or the text encoded into the `error` parameter. */
  function OtpErrorLocation(e: OtpError): (loc: string)
    ensures e.Expired? ==> loc == ExpiredLink
    ensures e.Invalid? ==> loc == InvalidLink
    ensures e.Other? ==>
      |loc| >= |ErrorPrefix| && loc[..|ErrorPrefix|] == ErrorPrefix
      && DecodeURIComponent(loc[|ErrorPrefix|..]) == Some(e.text)
  {
    match e
    case Expired => ExpiredLink
    case Invalid => InvalidLink
    case Other(text) => ErrorLocation(text)
  }

  /** A message that mentions a phrase mentions every part of it. */
  lemma MentionsWithin(message: Option<string>, phrase: string, part: string, at: nat)
    requires at + |part| <= |phrase| && phrase[at..at + |part|] == part
    ensures Mentions(message, phrase) ==> Mentions(message, part)
  {
    if Mentions(message, phrase) {
      var s := message.value;
      var i: nat :| i <= |s| && OccursAt(s, phrase, i);
      forall k | 0 <= k < |part| ensures s[i + at + k] == part[k] {
        assert s[i..i + |phrase|][at + k] == s[i + at + k];
        assert phrase[at..at + |part|][k] == phrase[at + k];
      }
      assert s[i + at..i + at + |part|] == part;
      assert OccursAt(s, part, i + at);
    }
  }

  /** A string lacking one of the needle's characters does not contain it. */
  lemma MissingCharacter(s: string, needle: string, k: nat)
    requires k < |needle| && needle[k] !in s
    ensures !Contains(s, needle)
  {
  }

  /** The redirect for anything thrown on the way: the error's message, or a
      generic one for a thrown value that is not an `Error`. */
  function ThrownLocation(t: Thrown): (loc: string)
    ensures |loc| >= |ErrorPrefix| && loc[..|ErrorPrefix|] == ErrorPrefix
    ensures DecodeURIComponent(loc[|ErrorPrefix|..]) ==
      Some(if t.ErrorInstance? then t.message else "An unexpected error occurred")
  {
    ErrorLocation(if t.ErrorInstance? then t.message else "An unexpected error occurred")
  }

  /** The role for the record: `user_metadata.role`, then
      `raw_user_meta_data.role`, then `student`; empty strings fall through. */
  function ResolveRole(u: AuthUser): (r: string)
    ensures r != ""
    ensures Truthy(u.metadataRole) ==> r == u.metadataRole.value
    ensures !Truthy(u.metadataRole) && Truthy(u.rawMetadataRole) ==> r == u.rawMetadataRole.value
    ensures !Truthy(u.metadataRole) && !Truthy(u.rawMetadataRole) ==> r == "student"
  {
    if Truthy(u.metadataRole) then u.metadataRole.value
    else if Truthy(u.rawMetadataRole) then u.rawMetadataRole.value
    else "student"
  }

  /** The profile for a new record by the same fallback, ending at `{}`. */
  function ResolveProfile(u: AuthUser): (p: Profile)
    ensures u.metadataProfile.Some? ==> p == u.metadataProfile.value
    ensures u.metadataProfile.None? && u.rawMetadataProfile.Some? ==> p == u.rawMetadataProfile.value
    ensures u.metadataProfile.None? && u.rawMetadataProfile.None? ==> p == EmptyProfile
  {
    u.metadataProfile.GetOr(u.rawMetadataProfile.GetOr(EmptyProfile))
  }

  /** The record `select('id, role').eq('id', id).maybeSingle()` finds: none when
      there is none or the query failed. */
  function ExistingRecord(users: map<UserId, User>, lookupOk: bool, id: UserId): (r: Option<User>)
    ensures r.Some? <==> lookupOk && id in users
    ensures r.Some? ==> r.value == users[id]
  {
    if lookupOk && id in users then Some(users[id]) else None
  }

  datatype Heal = CreateRecord | UpdateRole | LeaveAlone

  /** No record: create one; a record without a role: set its role; otherwise
      leave the table alone. */
  function HealDecision(existing: Option<User>): (h: Heal)
    ensures h == CreateRecord <==> existing.None?
    ensures h == UpdateRole <==> existing.Some? && existing.value.role == ""
  {
    if existing.None? then CreateRecord
    else if existing.value.role == "" then UpdateRole
    else LeaveAlone
  }

  /** The record a confirmation creates. */
  function NewRecord(u: AuthUser): User {
    User(u.id, u.email, ResolveRole(u), ResolveProfile(u))
  }

  /** The `users` table after the self-heal step for `u`. An insert is refused
      when the database does not accept the write or when a record with that
      id exists (the lookup failed and missed it); an update is refused only
      when the database does not accept it. */
  function Healed(users: map<UserId, User>, u: AuthUser, lookupOk: bool, writeAccepted: bool): (r: map<UserId, User>)
    ensures users.Keys <= r.Keys <= users.Keys + {u.id}
  {
    match HealDecision(ExistingRecord(users, lookupOk, u.id))
    case CreateRecord => if writeAccepted && u.id !in users then users[u.id := NewRecord(u)] else users
    case UpdateRole => if writeAccepted then users[u.id := users[u.id].(role := ResolveRole(u))] else users
    case LeaveAlone => users
  }

  /** The self-heal step as it runs against the table. */
  method HealUserRecord(table: UserTable, u: AuthUser, lookupOk: bool, writeAccepted: bool)
    requires table.Valid()
    modifies table
    ensures table.Valid()
    ensures table.rows == Healed(old(table.rows), u, lookupOk, writeAccepted)
  {
    var existing := ExistingRecord(table.rows, lookupOk, u.id);
    if existing.None? {
      if writeAccepted && u.id !in table.rows {
        table.rows := table.rows[u.id := NewRecord(u)];
      }
    } else if existing.value.role == "" {
      if writeAccepted {
        table.rows := table.rows[u.id := table.rows[u.id].(role := ResolveRole(u))];
      }
    }
  }

  /** Where the handler sends the browser, as the string handed to `new URL`
      (the percent-encoding that `new URL` applies to the query is not part
      of this model); the database's answers play no part. The parameter
      check comes before anything else, and a verified user lands on `next`. */
  function ConfirmLocation(params: Params, verify: VerifyAnswer): (loc: string)
    ensures !Truthy(params.tokenHash) || !Truthy(params.otpType) ==> loc == MissingParams
    ensures ReachesTable(params, verify) ==> loc == params.next.GetOr("/login")
    ensures Truthy(params.tokenHash) && Truthy(params.otpType) ==>
      && (verify.Threw? ==> loc == ThrownLocation(verify.thrown))
      && (verify.Failed? ==> loc == OtpErrorLocation(ClassifyOtpError(verify.message)))
      && (verify == Verified(None) ==> loc == NoUserData)
  {
    if !Truthy(params.tokenHash) || !Truthy(params.otpType) then MissingParams
    else match verify
      case Threw(t) => ThrownLocation(t)
      case Failed(message) => OtpErrorLocation(ClassifyOtpError(message))
      case Verified(None) => NoUserData
      case Verified(Some(_)) => params.next.GetOr("/login")
  }

  /** Whether the handler reaches the `users` table. */
  predicate ReachesTable(params: Params, verify: VerifyAnswer) {
    Truthy(params.tokenHash) && Truthy(params.otpType) && verify.Verified? && verify.user.Some?
  }

  /** `GET /auth/confirm`. */
  method Confirm(table: UserTable, params: Params, verify: VerifyAnswer, lookupOk: bool, writeAccepted: bool)
    returns (location: string)
    requires table.Valid()
    modifies table
    ensures table.Valid()
    ensures location == ConfirmLocation(params, verify)
    ensures table.rows == if ReachesTable(params, verify)
      then Healed(old(table.rows), verify.user.value, lookupOk, writeAccepted)
      else old(table.rows)
  {
    if !Truthy(params.tokenHash) || !Truthy(params.otpType) {
      return MissingParams;
    }
    match verify
    case Threw(t) =>
      location := ThrownLocation(t);
    case Failed(message) =>
      location := OtpErrorLocation(ClassifyOtpError(message));
    case Verified(user) =>
      if user.None? {
        location := NoUserData;
      } else {
        HealUserRecord(table, user.value, lookupOk, writeAccepted);
        location := params.next.GetOr("/login");
      }
  }

  // ---------------------------------------------------------------------------
  // Properties of the self-heal step

  /** Self-heal changes at most the confirmed user's record: every other record
      is kept, and no other id appears. */
  lemma HealTouchesOnlyUser(users: map<UserId, User>, u: AuthUser, lookupOk: bool, writeAccepted: bool)
    ensures var h := Healed(users, u, lookupOk, writeAccepted);
      && (forall id :: id != u.id ==> (id in h <==> id in users))
      && (forall id :: id != u.id && id in users ==> h[id] == users[id])
      && (u.id in users ==> u.id in h && h[u.id].email == users[u.id].email
                            && h[u.id].profileData == users[u.id].profileData)
  {
  }

  /** Without a record and with the insert accepted, exactly one record is
      created, carrying the id, the email, the resolved role and profile. */
  lemma HealCreates(users: map<UserId, User>, u: AuthUser, lookupOk: bool)
    requires u.id !in users
    ensures Healed(users, u, lookupOk, true) == users[u.id := User(u.id, u.email, ResolveRole(u), ResolveProfile(u))]
  {
  }

  /** A record without a role gets only its role set. */
  lemma HealSetsMissingRole(users: map<UserId, User>, u: AuthUser)
    requires u.id in users && users[u.id].role == ""
    ensures Healed(users, u, true, true) == users[u.id := users[u.id].(role := ResolveRole(u))]
  {
  }

  /** A record with a role is left as it is, whatever the database answers. */
  lemma HealKeepsRole(users: map<UserId, User>, u: AuthUser, lookupOk: bool, writeAccepted: bool)
    requires u.id in users && users[u.id].role != ""
    ensures Healed(users, u, lookupOk, writeAccepted) == users
  {
  }

  /** When the lookup fails, the handler tries to insert even for an existing
      record, and the primary key refuses it. */
  lemma HealAfterFailedLookup(users: map<UserId, User>, u: AuthUser, writeAccepted: bool)
    ensures HealDecision(ExistingRecord(users, false, u.id)) == CreateRecord
    ensures u.id in users ==> Healed(users, u, false, writeAccepted) == users
  {
  }

  /** Self-heal converges: once its write is accepted, the confirmed user has a
      record with a role, so a second confirmation changes nothing. */
  lemma HealConverges(users: map<UserId, User>, u: AuthUser, lookupOk: bool)
    requires lookupOk || u.id !in users
    ensures var h := Healed(users, u, lookupOk, true);
      && u.id in h && h[u.id].role != ""
      && HealDecision(ExistingRecord(h, true, u.id)) == LeaveAlone
      && Healed(h, u, true, true) == h
  {
  }

  /** The landing page after a confirmed link is `next`, `/login` without it. */
  lemma ConfirmedGoesNext(params: Params, u: AuthUser)
    requires Truthy(params.tokenHash) && Truthy(params.otpType)
    ensures ConfirmLocation(params, Verified(Some(u))) == if params.next.Some? then params.next.value else "/login"
  {
  }

  /** "expired" is tested first, so it wins over "invalid". */
  lemma ExpiredWinsOverInvalid()
    ensures ClassifyOtpError(Some("invalid token: token has expired")) == Expired
  {
    assert OccursAt("invalid token: token has expired", "expired", 25);
  }

  /** A message saying "invalid" gives the invalid-link redirect. */
  lemma InvalidMessage()
    ensures ClassifyOtpError(Some("Token is invalid")) == Invalid
  {
    assert OccursAt("Token is invalid", "invalid", 9);
    MissingCharacter("Token is invalid", "expired", 1);
  }

  /** An empty message is treated as an absent one: both put `Confirmation
      failed` into the query. */
  lemma EmptyMessageFallback()
    ensures ClassifyOtpError(Some("")) == ClassifyOtpError(None) == Other("Confirmation failed")
  {
    MissingCharacter("", "expired", 0);
    MissingCharacter("", "invalid", 0);
    MissingCharacter("", "already been used", 0);
  }
}
