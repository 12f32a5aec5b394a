# InfinityAcademy tutoring dashboard: a Dafny model of its core

InfinityAcademy is a Next.js tutoring dashboard on a Supabase backend. Students, parents, tutors and administrators sign in, and:

- administrators match tutors with students;
- tutors publish their weekly availability;
- lessons are scheduled, once or every week until an end date.

This project models the rules that decide what the dashboard stores and where it sends a browser:

- **Lessons** (`Lessons`): creating a lesson; expanding a recurring request into weekly instances linked to a parent; patching a lesson; and the two per-user lesson reads with their user join.
- **Matches** (`Matches`): creating a match, guarded by a check that the pair is new; deleting a match; and the three match reads with their joins and ordering.
- **Availability** (`Availability`): replacing a tutor's windows (delete, then batch insert); the ordered read of one tutor's windows; and the query for tutors free over a time span on a day.
- **Request gate** (`Middleware`): the redirect decision of the middleware for protected paths and for the login and signup pages.
- **Role gate** (`RoleRedirect`): the gate run by the parent, tutor and admin landing pages, the admin matching page, and the student and tutor lessons and schedule pages.
- **Email confirmation** (`EmailConfirm`, using `UriEncoding`): parameter checks, classification of verification errors into login redirects, and the self-heal of the `users` record (role and profile fallbacks; create, update or leave it alone).
- **Time display** (`TimeFormat`): the time-only test of the calendar card (`trim` plus the regular expression) and what it keeps.

Shared pieces:

- `Types` holds the records.
- `Query` holds the generic query operators: filter, ordering, deduplication.
- `Store` holds the tables, as classes whose `rows` the state-changing methods reassign, and the user join.

The database's and auth service's answers are parameters: whether a query failed, and which rows an insert accepted. Each operation is specified for every combination, error paths included.

## Model

| member | source | states |
|---|---|---|
| Types.ParseRole | src/utils/roles/redirectUser.ts:21-29 | a role name is read back only when it names a role (student, parent, tutor, admin); no role has any other name |
| Query.Filter | src/lib/db/lessons.ts:7-11 | `.eq(column, value)`: exactly the rows satisfying the predicate, none added |
| Query.FilterCounts | src/lib/db/lessons.ts:7-11 | a filter keeps each satisfying row as often as it occurs and drops the others |
| Query.FilterConcat | src/lib/db/availability.ts:30-57 | filtering distributes over appending a batch of rows |
| Query.FilterNested | src/lib/db/availability.ts:30-38 | filtering twice by a predicate and a stronger one is filtering by the stronger one |
| Query.SortBy | src/lib/db/lessons.ts:11 | `.order(...)`: a permutation of the rows that is sorted by the order |
| Query.SelectOrdered | src/lib/db/lessons.ts:7-11 | a filtered and ordered read: a permutation of the filtered rows, sorted, each satisfying the filter |
| Query.Dedup | src/lib/db/availability.ts:78 | `[...new Set(...)]`: the same elements without duplicates |
| Store.StoredLesson | src/lib/db/lessons.ts:80-91 | an inserted lesson gets the fresh id and status `scheduled` |
| Store.UserById | src/lib/db/matches.ts:129-139 | `.eq('id', id).single()` on `users`: a record exactly when the query worked and the id has one, carrying its email and profile |
| Store.FindAmongFetched | src/lib/db/lessons.ts:19-29 | `users.find(u => u.id === id)` over the users fetched with `.in('id', ids)` gives that user, or nothing when the fetch failed |
| Store.LookupEach | src/lib/db/lessons.ts:19-29 | the join attaches to each key the user with that id |
| Lessons.ApplyPatch | src/lib/db/lessons.ts:159-173 | each column present in the patch takes the patch's value, each absent column keeps the old one, and the id is kept |
| Lessons.PatchWhere | src/lib/db/lessons.ts:164-165 | `update(patch).eq('id', id)`: same length, rows with that id patched, all others unchanged |
| Lessons.PatchIdempotent | src/lib/db/lessons.ts:159-173 | applying the same patch twice is applying it once |
| Lessons.EmptyPatchKeeps | src/lib/db/lessons.ts:159-173 | the empty patch `{}` leaves a lesson as it is |
| Lessons.UpdateTwiceIsOnce | src/lib/db/lessons.ts:159-173 | repeating an update leaves the table as after the first |
| Lessons.CreateLesson | src/lib/db/lessons.ts:66-92 | on success, the stored row, with a fresh id, is appended and returned; on error, null and the table unchanged |
| Lessons.UpdateLesson | src/lib/db/lessons.ts:159-173 | on success, every row with the id is patched and true is returned; on error, false and nothing changes |
| Lessons.AttemptCount | src/lib/db/lessons.ts:115 | how many weeks the `<=` loop attempts: none exactly when the start is after the end date (per week: `AttemptedExactly`) |
| Lessons.AttemptedExactly | src/lib/db/lessons.ts:115-153 | week k is attempted exactly when start + k weeks is not after the end date |
| Lessons.SuccessfulWeeks | src/lib/db/lessons.ts:141-150 | the accepted weeks below n, each once, in increasing order |
| Lessons.WeekDraft | src/lib/db/lessons.ts:116-133 | week k's insert starts k weeks after the request, keeps its duration, copies tutor, student, title, subject, description and meeting link, sets `is_recurring`, omits `recurring_until`, and carries the parent once known |
| Lessons.Series | src/lib/db/lessons.ts:115-154 | the loop's returned list: at most one instance per attempted week (closed form: `SeriesAt`) |
| Lessons.SeriesAt | src/lib/db/lessons.ts:115-154 | the i-th returned instance is the insert of the i-th accepted week, with id first+i and, after the first, parent first |
| Lessons.CreateRecurringLessons | src/lib/db/lessons.ts:94-157 | returns the series of the attempted weeks; the table gains that series, with the first row pointing at itself when its update succeeded; ids advance by the series length |
| Lessons.InsertWeek | src/lib/db/lessons.ts:116-150 | one loop pass keeps the series, parent and table invariants for one more week |
| Lessons.StoredSeries | src/lib/db/lessons.ts:143-148 | the stored series: the same rows, the first pointing at itself when its update succeeded |
| Lessons.StoredSeriesAppend | src/lib/db/lessons.ts:141-148 | later inserts leave the stored form of earlier rows alone |
| Lessons.FirstRowPatched | src/lib/db/lessons.ts:143-146 | updating a fresh row to be its own parent changes that row only |
| Lessons.SeriesInstances | src/lib/db/lessons.ts:115-139 | each instance starts a whole number of weeks after the start, not after the end date; keeps the duration; copies the request's columns with `is_recurring` set and no `recurring_until` |
| Lessons.SeriesIncreasing | src/lib/db/lessons.ts:115-154 | the returned instances are in strictly increasing start order |
| Lessons.SeriesHoldsExactlyAcceptedWeeks | src/lib/db/lessons.ts:115-154 | a week has an instance if and only if it is not after the end date and its insert was accepted |
| Lessons.AcceptedWeekIncluded | src/lib/db/lessons.ts:135-150 | an accepted week within the bound yields an instance |
| Lessons.IncludedWeekAccepted | src/lib/db/lessons.ts:135-150 | every instance comes from an accepted week within the bound |
| Lessons.SeriesEmptyAfterBound | src/lib/db/lessons.ts:115 | a start after the end date gives no lessons |
| Lessons.SeriesParents | src/lib/db/lessons.ts:131-149 | the returned first instance has no parent and the later ones have the first id; in the table all rows have it when the update succeeded |
| Lessons.FourWeeksInclusive | src/lib/db/lessons.ts:115 | an end date exactly three weeks after the start gives four instances |
| Lessons.DateInputBound | src/lib/db/lessons.ts:108 | `new Date("YYYY-MM-DD")` is midnight UTC of that date |
| Lessons.DateInputBoundDropsEndDate | src/lib/db/lessons.ts:108-115 | for any start after midnight UTC, with the end date the date of week k, only weeks 0 to k - 1 are attempted: the end-date occurrence is lost |
| Lessons.DateInputBoundInclusive | src/lib/db/lessons.ts:108 | the corrected bound is the last millisecond of the end date |
| Lessons.DateInputBoundInclusiveCoversEndDate | src/lib/db/lessons.ts:108-115 | with the corrected bound, a week is attempted if and only if it falls on or before the end date |
| Lessons.AttachStudents | src/lib/db/lessons.ts:19-29 | the same lessons in the same order, each with the user whose id is its student id |
| Lessons.AttachTutors | src/lib/db/lessons.ts:50-60 | the same lessons in the same order, each with the user whose id is its tutor id |
| Lessons.LessonsForTutor | src/lib/db/lessons.ts:4-33 | [] on error; otherwise a permutation of the tutor's lessons, sorted by start time, each with its student attached |
| Lessons.LessonsForStudent | src/lib/db/lessons.ts:35-64 | [] on error; otherwise a permutation of the student's lessons, sorted by start time, each with its tutor attached |
| Matches.ExistingMatch | src/lib/db/matches.ts:105-115 | `maybeSingle` finds a match exactly when the lookup succeeds and exactly one row holds the pair; that row is in the table and holds the pair |
| Matches.CreateMatch | src/lib/db/matches.ts:102-146 | inserts exactly when no existing match was found and the insert succeeded; then returns the new row with both users attached; otherwise null and the table unchanged |
| Matches.DeleteMatch | src/lib/db/matches.ts:148-162 | on success, the rows with that id are removed and true is returned; on error, false and nothing changes |
| Matches.PairCounted | src/lib/db/matches.ts:106-111 | a pair is counted exactly when a row holds it |
| Matches.UniquePairFound | src/lib/db/matches.ts:106-115 | in a table without duplicate pairs, the check finds a match exactly when a row holds the pair |
| Matches.AfterCreate | src/lib/db/matches.ts:102-126 | the rows after a create attempt: unchanged, or the new row appended exactly when no match was found and the insert succeeded |
| Matches.CreateKeepsPairsUnique | src/lib/db/matches.ts:102-126 | with a working lookup, creating keeps pairs unique, and creating a registered pair changes nothing |
| Matches.PairCountAppend | src/lib/db/matches.ts:117-126 | appending a row adds one to its pair's count and nothing to the others |
| Matches.CreateTwiceStoresOnce | src/lib/db/matches.ts:102-126 | creating the same pair twice stores it once: the second call is a no-op |
| Matches.DuplicatesDefeatTheCheck | src/lib/db/matches.ts:106-115 | once a pair is stored twice, `maybeSingle` errors, the check passes and a third copy is inserted |
| Matches.FailedLookupDuplicates | src/lib/db/matches.ts:106-117 | a failed lookup lets an existing pair be inserted again |
| Matches.Annotate | src/lib/db/matches.ts:78-96 | the same matches in the same order, each with the requested users attached by id |
| Matches.TutorMatches | src/lib/db/matches.ts:4-32 | [] on error; otherwise exactly the tutor's matches in table order, each with its student attached |
| Matches.StudentMatches | src/lib/db/matches.ts:34-62 | [] on error; otherwise exactly the student's matches in table order, each with its tutor attached |
| Matches.NewestFirst | src/lib/db/matches.ts:70 | a permutation of all matches with `created_at` non-increasing |
| Matches.AllMatches | src/lib/db/matches.ts:64-100 | [] on error; otherwise all matches newest first, each with both users attached |
| Availability.Tagged | src/lib/db/availability.ts:41-50 | one row per submitted window, in order, tagged with the tutor, with consecutive fresh ids |
| Availability.SetTutorAvailability | src/lib/db/availability.ts:22-60 | the tutor's rows are deleted when the delete succeeds; a non-empty batch is appended when its insert succeeds; false exactly when a batch was refused |
| Availability.ReplacementExact | src/lib/db/availability.ts:30-57 | after a successful replacement, the tutor's rows are exactly the submitted windows, and every other tutor's rows are unchanged |
| Availability.EmptySubmissionClears | src/lib/db/availability.ts:30-41 | an empty submission with a successful delete leaves the tutor no windows |
| Availability.FailedDeleteKeepsOldRows | src/lib/db/availability.ts:30-57 | an ignored delete error leaves the tutor the old windows followed by the new ones |
| Availability.TutorAvailability | src/lib/db/availability.ts:4-20 | [] on error; otherwise a permutation of the tutor's windows, ordered by day and then start time |
| Availability.CoveringTutors | src/lib/db/availability.ts:68-78 | a tutor is listed exactly when one of their windows on the day starts no later and ends no earlier than the span |
| Availability.AvailableTutorsForDay | src/lib/db/availability.ts:62-79 | [] on error; otherwise exactly the tutors with a covering window, each once |
| Middleware.IsPublicPath | src/utils/supabase/middleware.ts:56-58 | the public list's prefix tests; every listed path starts with `/` (it decides nothing: `PublicNotProtected`, `PublicListIgnored`) |
| Middleware.IsProtectedPath | src/utils/supabase/middleware.ts:61-67 | `/` or a raw prefix test on the role areas and `/private`; every such path starts with `/` and, except `/`, has at least six characters (edge cases: `PrefixAndEqualityTests`) |
| Middleware.SetParam | src/utils/supabase/middleware.ts:76 | `searchParams.set`: the new pair is present and the query grows by at most one (in full: `SetParamEffect`) |
| Middleware.Without | src/utils/supabase/middleware.ts:76 | the query without the named parameter, other pairs kept |
| Middleware.SetParamEffect | src/utils/supabase/middleware.ts:76 | after `searchParams.set`, the parameter occurs once, with the new value, and the others are kept in order |
| Middleware.SetParamReplacesFirst | src/utils/supabase/middleware.ts:76 | `set` puts the new pair at the first occurrence of the name, the pairs before it unchanged |
| Middleware.SetParamAppends | src/utils/supabase/middleware.ts:76 | without the name, `set` appends the pair |
| Middleware.DiffersAt | src/utils/supabase/middleware.ts:56-67 | a path that differs from a prefix inside it does not start with it |
| Middleware.UpdateSession | src/utils/supabase/middleware.ts:37-99 | no user on a protected path goes to `/login` with the message; a user on exactly `/login` or `/signup` goes to `/` with the query; everything else, and any throw, passes through (both directions) |
| Middleware.PublicNotProtected | src/utils/supabase/middleware.ts:48-67 | no public path is protected |
| Middleware.LoginNotProtected | src/utils/supabase/middleware.ts:61-67 | `/login` is not protected |
| Middleware.NoRedirectLoop | src/utils/supabase/middleware.ts:71-90 | a redirect target passes straight through for the same user |
| Middleware.PrefixAndEqualityTests | src/utils/supabase/middleware.ts:61-90 | `/students` counts as protected; `/login/` lets a signed-in user through; `/signup` keeps its query on the way to `/` |
| Middleware.PublicListIgnored | src/utils/supabase/middleware.ts:48-95 | being on the public list decides nothing: `/login` redirects a signed-in user, and `/pricing` passes without one |
| RoleRedirect.RedirectUser | src/utils/roles/redirectUser.ts:5-31 | no token renders; a token without a role goes to the login prompt; an allowed role renders; a disallowed role goes to its landing page, admin and unknown roles render |
| RoleRedirect.RedirectTargets | src/utils/roles/redirectUser.ts:11-29 | the login prompt is chosen exactly when the token has no role; any other redirect is the landing page of a disallowed known role |
| RoleRedirect.EmptyListSendsHome | src/utils/roles/redirectUser.ts:21-29 | with no allowed roles, every role but admin goes to its landing page |
| RoleRedirect.AdminFallsThrough | src/utils/roles/redirectUser.ts:21-29 | an administrator is never redirected |
| RoleRedirect.LandingPageAdmits | src/utils/roles/redirectUser.ts:21-29 | the landing page a role is sent to admits it |
| UriEncoding.Utf8 | src/app/auth/confirm/route.ts:50 | a scalar value encodes to one to four bytes |
| UriEncoding.EncodeURIComponent | src/app/auth/confirm/route.ts:50 | the encoding consists of unreserved characters and `%` |
| UriEncoding.DecodeEncode | src/app/auth/confirm/route.ts:50 | decoding the encoding of a message gives the message back |
| UriEncoding.EncodeUnreserved | src/app/auth/confirm/route.ts:50 | a string of unreserved characters is its own encoding |
| EmailConfirm.ErrorLocation | src/app/auth/confirm/route.ts:50 | the string handed to `new URL` starts with `/login?error=`, its query decodes to the message, and it holds no space |
| EmailConfirm.ClassifyOtpError | src/app/auth/confirm/route.ts:42-50 | expired exactly when the message mentions "expired"; invalid exactly when it does not but mentions "invalid" or "already been used" (case-sensitive); otherwise the message, or `Confirmation failed` when it is absent or empty |
| EmailConfirm.OtpErrorLocation | src/app/auth/confirm/route.ts:42-50 | the expired and invalid errors get their fixed links; any other error's text is encoded into the `error` parameter and decodes back to it |
| EmailConfirm.MentionsWithin | src/app/auth/confirm/route.ts:42 | a message that mentions "token has expired" mentions "expired" |
| EmailConfirm.MissingCharacter | src/app/auth/confirm/route.ts:42-48 | a message lacking a character of a phrase does not mention it |
| EmailConfirm.ThrownLocation | src/app/auth/confirm/route.ts:123-132 | a thrown error's message, or a generic one for a non-error, in the query |
| EmailConfirm.ResolveRole | src/app/auth/confirm/route.ts:74-76 | `user_metadata.role`, then `raw_user_meta_data.role`, then `student`, with empty strings falling through; never empty |
| EmailConfirm.ResolveProfile | src/app/auth/confirm/route.ts:87 | `user_metadata.profile_data`, then the raw one, then `{}` |
| EmailConfirm.ExistingRecord | src/app/auth/confirm/route.ts:61-70 | `maybeSingle` with its error only logged: a record exactly when the lookup worked and the id has one, and then that record |
| EmailConfirm.HealDecision | src/app/auth/confirm/route.ts:72-117 | create exactly when no record was found; update exactly when the record has no role |
| EmailConfirm.Healed | src/app/auth/confirm/route.ts:61-117 | the users table after self-heal: keeps every id and adds at most the confirmed user's (record contents: `HealCreates`, `HealSetsMissingRole`, `HealKeepsRole`, `HealTouchesOnlyUser`) |
| EmailConfirm.HealUserRecord | src/app/auth/confirm/route.ts:61-117 | the table after the self-heal step is the healed table |
| EmailConfirm.ConfirmLocation | src/app/auth/confirm/route.ts:8-132 | missing `token_hash` or `type` gives the missing-parameters link whatever else holds; otherwise a throw gives the thrown-error redirect, a verification error the redirect of its classification, a verification without a user the no-user-data link, and a verified user lands on `next`, `/login` without one |
| EmailConfirm.Confirm | src/app/auth/confirm/route.ts:8-132 | the redirect is the confirm location, and the table is healed exactly when the link was verified with a user |
| EmailConfirm.HealTouchesOnlyUser | src/app/auth/confirm/route.ts:72-117 | self-heal changes at most the confirmed user's record, never its email or profile |
| EmailConfirm.HealCreates | src/app/auth/confirm/route.ts:72-99 | without a record, an accepted insert adds the record with the id, the email, the resolved role and the resolved profile |
| EmailConfirm.HealSetsMissingRole | src/app/auth/confirm/route.ts:100-114 | a record without a role gets only the resolved role |
| EmailConfirm.HealKeepsRole | src/app/auth/confirm/route.ts:115-117 | a record with a role is left alone |
| EmailConfirm.HealAfterFailedLookup | src/app/auth/confirm/route.ts:61-72 | after an ignored lookup error the handler attempts an insert, which an existing record refuses |
| EmailConfirm.HealConverges | src/app/auth/confirm/route.ts:61-117 | after an accepted write the user has a record with a role, and a second confirmation changes nothing |
| EmailConfirm.ConfirmedGoesNext | src/app/auth/confirm/route.ts:11 | a confirmed link lands on `next`, `/login` without one |
| EmailConfirm.ExpiredWinsOverInvalid | src/app/auth/confirm/route.ts:42-48 | "expired" is tested before "invalid": a message with both is classified expired |
| EmailConfirm.InvalidMessage | src/app/auth/confirm/route.ts:46-48 | a message saying "invalid" is classified invalid |
| EmailConfirm.EmptyMessageFallback | src/app/auth/confirm/route.ts:50 | an empty message is treated as a missing one: both show `Confirmation failed` |
| TimeFormat.SkipSpace | src/components/calendarCard.tsx:55 | skips exactly the leading whitespace |
| TimeFormat.SkipSpaceBack | src/components/calendarCard.tsx:55 | skips exactly the trailing whitespace |
| TimeFormat.TrimBounds | src/components/calendarCard.tsx:55 | everything outside the bounds is whitespace, and the kept part neither starts nor ends with it |
| TimeFormat.Trim | src/components/calendarCard.tsx:55-56 | the trimmed string neither starts nor ends with whitespace |
| TimeFormat.TrimAllSpace | src/components/calendarCard.tsx:55 | an all-whitespace string trims to empty |
| TimeFormat.TrimIdempotent | src/components/calendarCard.tsx:55-56 | trimming twice is trimming once |
| TimeFormat.HourDigits | src/components/calendarCard.tsx:55 | the hour part is at most two digits followed by `:` |
| TimeFormat.ParseSuffix | src/components/calendarCard.tsx:55 | the suffix splits into an optional whitespace character and two meridiem letters |
| TimeFormat.ParseTimeSound | src/components/calendarCard.tsx:55 | what the parser accepts is a well-formed time that renders back to the input |
| TimeFormat.ParseTimeComplete | src/components/calendarCard.tsx:55 | every well-formed time is parsed back to its parts |
| TimeFormat.ParseTime | src/components/calendarCard.tsx:55 | the parts it cuts out put back together to the input (well-formedness: `ParseTimeSound`) |
| TimeFormat.IsTimeOnly | src/components/calendarCard.tsx:55 | the regex test; an accepted string is 4 to 8 characters long (exact language: `IsTimeOnlyMatchesPattern`) |
| TimeFormat.IsTimeOnlyMatchesPattern | src/components/calendarCard.tsx:55 | the test holds if and only if the string matches the pattern: one or two digits, `:`, two digits, optionally one whitespace and two of `APMapm` |
| TimeFormat.FormatTime | src/components/calendarCard.tsx:50-61 | a string is kept exactly when its trimmed form is time-only, and then the trimmed form is shown |
| TimeFormat.KeptIsTime | src/components/calendarCard.tsx:41-56 | a kept string matches the pattern and is 4 to 8 characters long |
| TimeFormat.FormatIdempotent | src/components/calendarCard.tsx:55-56 | a kept string is kept unchanged when formatted again |
| TimeFormat.AcceptsTwentyFourHour | src/components/calendarCard.tsx:44-55 | "14:30" is kept |
| TimeFormat.AcceptsPaddedMeridiem | src/components/calendarCard.tsx:44-55 | " 2:30 PM " is shown as "2:30 PM" |
| TimeFormat.AcceptsLowercaseMeridiem | src/components/calendarCard.tsx:55 | "2:30pm" is kept |
| TimeFormat.AcceptsOutOfRange | src/components/calendarCard.tsx:55 | "99:99" is kept: the pattern checks shape, not range |
| TimeFormat.RejectsThreeHourDigits | src/components/calendarCard.tsx:55 | "123:45" goes to the date branch |
| TimeFormat.RejectsOneMinuteDigit | src/components/calendarCard.tsx:55 | "14:3" goes to the date branch |
| TimeFormat.RejectsTwoSpaces | src/components/calendarCard.tsx:55 | "2:30  PM" goes to the date branch |
| TimeFormat.DateObjectFormatted | src/components/calendarCard.tsx:51-52 | a `Date` is formatted by the locale |

## Left out

- I/O is not modelled: console logging, the Supabase client construction, and the cookie refresh in the middleware. Each database or auth call is a boolean or value parameter.
- Calendar dates and time zones are not modelled. Lesson times are milliseconds since the epoch and availability times are minutes since midnight, both integers. `new Date(...)` parsing and the `toLocaleTimeString` branches of `formatTime` are reduced to a single `DateFormatted` outcome. `formatDate` is not part of this model.
- The JWT decoding in the role gate is not modelled: the access token and its `user_role` claim are inputs. The redirect Next.js performs by throwing is a returned outcome.
- Environment variables are not modelled: the middleware's check for missing Supabase variables (src/utils/supabase/middleware.ts:6-12) is left out.
- Concurrency is not modelled: two `createMatch` calls racing between the existence check and the insert are not captured.
- Identifiers and timestamps are simplified. Database ids are consecutive integers handed out by the table. Only a match's `created_at` is kept, as an input. Other `created_at`/`updated_at` columns are left out.
- Lessons.ApplyPatch: a patch can set a column but not clear an optional one to null.
- Lessons.ApplyPatch: the patch has no `id` column, though `Partial<Lesson>` allows one; changing a lesson's primary key through `updateLesson` is not modelled.
- Throws are modelled only where the handler catches them: auth calls in the confirm handler and `getUser` in the middleware. Other database calls do not throw in this model.
- EmailConfirm.ConfirmLocation: redirect locations are the strings handed to `new URL`; the percent-encoding `new URL` then applies to spaces and other characters in the query is not modelled, so two different locations here may become the same URL (for example the message "Invalid or already used confirmation link." reaches the catch-all branch and encodes to the same URL as the fixed invalid-link redirect).
- Lone surrogates, on which `encodeURIComponent` throws, do not occur: Dafny characters are Unicode scalar values.
- The confirm handler's duplicate-insert branch is only logged and has no separate model: its outcome equals a refused insert. The same holds for an error returned by `getUser` in the middleware.
- Email and Google Meet link generation, and the pages and UI components, are not part of this model.

Where the code departs from its evident intent, the model follows the code:

- The role gate has no branch for administrators or unknown roles. They render whatever the allowed list says (`AdminFallsThrough`).
- `createRecurringLessons` returns the first instance as inserted, without a parent. Only the table row is then updated to point at itself. `recurring_until` is not copied into the instances (`SeriesParents`, `SeriesInstances`).
- The duplicate check in `createMatch` uses `maybeSingle`, which errors when two rows hold the pair. Its data is then null, so the check passes and yet another copy is inserted (`DuplicatesDefeatTheCheck`). A failed lookup likewise lets a duplicate in (`FailedLookupDuplicates`).
- In the confirm handler, an error from the record lookup is only logged. The handler then treats the user as having no record and attempts an insert (`HealAfterFailedLookup`).
- The middleware's public-path list is computed but used only for logging (`PublicListIgnored`).
- `next` falls back to `/login` only when it is absent. An empty `next` is returned as it is (`ConfirmedGoesNext`).

## Findings

| source | as written | input that shows it | evidently intended | confidence | as-written member | corrected member |
|---|---|---|---|---|---|---|
| src/lib/db/lessons.ts:108-115 | the end bound is `new Date(recurring_until)`. The scheduling form sends a `YYYY-MM-DD` date, which parses to midnight UTC, and the loop runs while the start is `<=` that bound | a weekly lesson at 10:00 UTC with the end date exactly three weeks later: the fourth occurrence, on the end date, starts after that midnight and is not created | an occurrence on the end date itself is created, with the bound taken as the end of that day | not executed | Lessons.DateInputBoundDropsEndDate | Lessons.DateInputBoundInclusiveCoversEndDate |
