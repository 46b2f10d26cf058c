# Fitness course booking service: a Dafny model

This project models the request handlers of a small course-booking backend
(an Express service over a relational database). Users sign up and log in.
Coaches publish courses. Users buy credit packages and spend one credit per
course booking. An administrator promotes users to coaches. The public lists
courses, coaches and skills.

The model is functional. The database is one immutable `Store` holding seven
tables: users, coaches, courses, skills, credit packages, credit purchases and
course bookings. Each handler is a pure function from a store and the request's
inputs to `Handled(response, store')`. A response is one of:

- `Success(code, data)`: the `{status: 'success', data}` envelope;
- `Failed(code, message)`: what the handler passes to the shared error handler;
- `Fault`: an exception the handler does not catch, for example reading a
  field of a row that is not there.

What the model covers:

- The value checks the handlers use: `isInvalidString`, `isInvalidInteger`,
  `isValidName` and `isValidPassword`. It also models the JavaScript semantics
  they rest on: `trim`, `startsWith`, `% 1`, and `parseInt` with no radix.
  These are in `JsValues` and `ValidUtils`.
- The booking ledger: active bookings per user, per course and per pair, and
  the purchased-credit sum, which is null when a user has no purchase. See
  `Ledger`.
- The week-7 controllers, in `CourseController`, `AdminController`,
  `CreditPackageController`, `UserController`, `SkillController` and
  `CoachController`.
- The week-6 booking route, in `CourseRoutesV6`.
- The whole service as a state machine, in `Requests`. `Step` runs one request.
  `Run` runs a sequence of requests.

What is proved:

- Every handler's contract closes the set of replies the handler can give.
  It states each refusal and each uncaught exception together with the exact
  condition that produces it, in both directions. The one exception is the
  coach list with a zero or negative page size or number (see Left out).
- A failing request leaves the store as it was.
- A successful one changes only what it should.
- Three ledger promises: at most one active booking per (user, course); no
  course above its `max_participants`; no user above the credits the user has
  bought. Booking and cancelling keep all three (`BookingRules`).
- A cancellation gives back exactly one credit and one seat, so the same user
  can book the same course again at once.
- No request takes back history: booking rows and course rows are never
  deleted, and a booking keeps its user and course (`Requests.RunKeepsHistory`).
  So in the week-6 service a cancelled booking blocks that user from that
  course for good (`CourseRoutesV6.CancelledCourseBlockedLaterV6`).
- The store invariant `Requests.Consistent` is the ledger promises, plus
  coach rows that agree with user roles, plus unique keys in every table
  (bookings and purchases included), unique emails, package names and skill
  names. Every request keeps it, with one exception. A course
  update keeps it exactly when the new size still covers the course's active
  bookings. `AdminRules.UpdateCanOverbook` shows that the update handler
  itself does not check this.

The handlers take some inputs as parameters:

- the request-body validator's error list;
- the password hash and the password comparison;
- the issued token;
- the current time.

## Model

| member | source | states |
|---|---|---|
| ValidUtils.IsInvalidString | week6_01/utils/validUtils.js:12-14 | a value is rejected exactly when it is not a string with a non-whitespace character |
| ValidUtils.IsInvalidInteger | week6_01/utils/validUtils.js:16-18 | a value is rejected exactly when it is not a non-negative whole number (NaN, fractions, infinities and non-numbers are rejected) |
| ValidUtils.IsValidName | week6_01/utils/validUtils.js:7-10 | a name is accepted exactly when it has 2 to 10 characters, all ASCII letters or digits |
| ValidUtils.ValidNameIsValidString | week6_01/utils/validUtils.js:7-14 | every accepted name also passes the non-blank string check |
| ValidUtils.PasswordMeaning | week6_01/utils/validUtils.js:2-5 | on a single line, the unanchored pattern accepts exactly the strings of at least 8 characters containing a digit, a lower-case and an upper-case letter; there is no upper bound |
| ValidUtils.PasswordLongerThanSixteenAccepted | week6_01/utils/validUtils.js:3 | a 17-character password is accepted although the pattern writes `{8,16}` |
| ValidUtils.PasswordExtends | week6_01/utils/validUtils.js:2-5 | appending any text to an accepted password keeps it accepted, since the pattern is not anchored |
| ValidUtils.IsValidPasswordAnchored | week6_01/utils/validUtils.js:3 | the anchored pattern accepts exactly the single-line strings of 8 to 16 characters with a digit, a lower-case and an upper-case letter |
| JsValues.TrimEmptyIffAllWhitespace | week6_01/utils/validUtils.js:13 | `trim()` gives the empty string exactly when every character is JavaScript whitespace |
| JsValues.ParseInt | week7_01/controllers/coach.js:10-12 | `parseInt` of query text is always a whole number, NaN or an infinity, never a fraction |
| JsValues.ParseIntDecimal | week7_01/controllers/coach.js:10-12 | a plain run of decimal digits parses to its own value |
| JsValues.ParseMissingIsNaN | week7_01/controllers/coach.js:10-12 | a missing query parameter (the text "undefined") parses to NaN |
| Repository.FindFirst | week7_01/controllers/course.js:51 | `findOne` returns the first matching row in table order (no earlier row matches), and returns none exactly when no row matches |
| Repository.FindsFirst | week7_01/controllers/course.js:51 | whichever row is the first match, `findOne` returns exactly that row |
| Repository.CountWhere | week7_01/controllers/course.js:72-83 | `count` never exceeds the table size and is zero exactly when no row matches |
| Repository.UpdateWhere | week7_01/controllers/course.js:114-122 | `update` changes exactly the matching rows, keeps the others, and reports how many it changed |
| Repository.DeleteWhere | week7_01/controllers/creditPackage.js:74-80 | `delete` removes exactly the matching rows, keeps every other row, and reports how many it removed |
| Repository.DeleteKeepsDistinctKeys | week7_01/controllers/creditPackage.js:74-76 | deleting rows never makes a unique column hold a duplicate |
| Ledger.CreditsAppend | week7_01/controllers/creditPackage.js:56-64 | with no purchase the credit sum is null; a new purchase adds its credits to its own user only |
| Ledger.CancelCounts | week7_01/controllers/course.js:114-122 | stamping the pair's active bookings takes exactly those bookings out of the user, course and pair counts |
| Ledger.PairAtMostUser | week7_01/controllers/course.js:69-90 | a pair's active bookings never exceed the user's or the course's |
| CourseController.ViewCourses | week7_01/controllers/course.js:10-43 | the list has one row per course with its coach's and skill's names, and it fails exactly when some course's coach or skill row is missing |
| CourseController.GetCourses | week7_01/controllers/course.js:8-46 | the course list is read-only, answers 200, and throws exactly when a coach or skill row is missing |
| CourseController.PostCourse | week7_01/controllers/course.js:47-98 | each refusal (unknown course, active booking of the pair, credits used up, course full) comes with its exact condition, in check order; success appends one active booking under a new key and changes nothing else |
| CourseController.DeleteCourse | week7_01/controllers/course.js:99-130 | it is refused, always with the "course not found" reply, exactly when the pair has no active booking, and succeeds otherwise; success stamps the pair's active bookings with the time and nothing else; the "cancel failed" reply is unreachable |
| BookingRules.NoPurchaseNoBooking | week7_01/controllers/course.js:69-87 | a user without purchases has a null credit sum, which compares as 0, so every booking of an existing course is refused |
| BookingRules.BookingKeepsLedger | week7_01/controllers/course.js:47-98 | booking keeps the three ledger promises and the course references |
| BookingRules.CancelKeepsLedger | week7_01/controllers/course.js:99-130 | cancelling keeps the three ledger promises and the course references |
| BookingRules.CancelFreesOneCreditAndSeat | week7_01/controllers/course.js:114-127 | a successful cancellation lowers the user's and the course's counts by exactly one, leaves no active booking of the pair, and changes no other user's or course's count |
| BookingRules.BookingSucceedsWhenChecksPass | week7_01/controllers/course.js:84-97 | when every check passes and course keys are unique, booking succeeds (the converse of the success clause) |
| BookingRules.CancelThenRebook | week7_01/controllers/course.js:58-68 | after a successful cancellation the same user can book the same course again at once |
| CourseRoutesV6.PostCourseV6 | week6_01/routes/course.js:18-73 | the earlier route runs the same four checks in the same order as PostCourse, each refusal stated with its exact condition in both directions, except that any booking row of the pair, cancelled or not, counts as already booked; when all checks pass it must book |
| CourseRoutesV6.AgreesWithoutHistory | week6_01/routes/course.js:30-39 | where the pair has no booking row at all, the earlier and current routes answer and act identically |
| CourseRoutesV6.BookingV6KeepsLedger | week6_01/routes/course.js:18-73 | the earlier route keeps the ledger promises too |
| CourseRoutesV6.CancelledCourseBlockedV6 | week6_01/routes/course.js:30-39 | right after a cancellation the earlier route refuses the next booking of that course by that user |
| CourseRoutesV6.RunV6KeepsHistory | week6_01/routes/course.js:18-73 | in the earlier service too, no sequence of requests deletes a booking or course row, moves a booking to another user or course, or re-keys a course |
| CourseRoutesV6.CancelledCourseBlockedLaterV6 | week6_01/routes/course.js:30-39 | after a cancellation and any later requests, the earlier route still refuses that user's booking of that course as already booked |
| AdminController.CourseFieldsRejected | week7_01/controllers/admin.js:20-34 | a course body is rejected exactly when a field is blank, the size is not a non-negative whole number, or the meeting URL does not start with "https" |
| AdminController.PostAdminCourses | week7_01/controllers/admin.js:9-51 | it answers 400 exactly for a rejected body or a blank caller; otherwise it appends one course owned by the caller with the body's fields and returns it with 200 |
| AdminController.PutAdmin | week7_01/controllers/admin.js:52-110 | it answers 400 exactly for a rejected body and exactly for a course the caller does not own, with no other refusal; otherwise it answers 201 and rewrites the seven columns of every row with that key to the body's fields, leaving every other row and table as it was; the reply carries the first row with that key, read again after the update |
| AdminController.CoachBodyProblem | week7_01/controllers/admin.js:113-130 | a coach body is refused for its fields exactly when the years or the description are invalid, and for its avatar exactly when a non-blank avatar does not start with "https" |
| AdminController.PromoteUser | week7_01/controllers/admin.js:131-175 | it refuses an unknown user with 400, and answers 409 exactly when the first user with that key is already a COACH; otherwise it flips that user's role to COACH, saves the coach row and returns both with 201: the user part is the first row with the key, re-read, so its name is that row's name and its role COACH |
| AdminController.PostAdminAsCoach | week7_01/controllers/admin.js:111-176 | each refusal, and the promotion, come with their exact conditions; a refusal leaves the store as it was; a promotion replies with the first user row's name, role COACH and the new coach row |
| AdminRules.UpdateKeepsCapacityIff | week7_01/controllers/admin.js:88-101 | after a successful update, the capacity promise holds exactly when the course's active bookings fit the new size |
| AdminRules.UpdateCanOverbook | week7_01/controllers/admin.js:64-109 | the update accepts a size below the course's active bookings, and the capacity promise then fails |
| AdminRules.PromotedCoachReadable | week7_01/controllers/admin.js:145-175 | right after a promotion, the coach detail of the new coach row succeeds, returns that row, names its user and gives the role COACH |
| AdminRules.PromotionKeepsCoaches | week7_01/controllers/admin.js:145-175 | promotion keeps the coach table consistent with the users' roles and keeps keys unique |
| CreditPackageController.GetCreditPackages | week7_01/controllers/creditPackage.js:8-13 | the list holds exactly the package rows and changes nothing |
| CreditPackageController.PostCreditPackage | week7_01/controllers/creditPackage.js:14-42 | it answers 400 exactly for an incomplete body and 409 exactly for a taken name, and refuses for no other reason; otherwise it appends the package under a new key and name |
| CreditPackageController.PostPackageKeepsUnique | week7_01/controllers/creditPackage.js:24-33 | creating packages keeps package keys and names unique |
| CreditPackageController.CreatedPackageListed | week7_01/controllers/creditPackage.js:8-42 | a created package appears in the next package list |
| CreditPackageController.PostCreditPackageId | week7_01/controllers/creditPackage.js:43-67 | a purchase is refused exactly for an unknown package; otherwise it appends one purchase that copies that package's credits and price |
| CreditPackageController.PurchaseRaisesCredits | week7_01/controllers/creditPackage.js:56-66 | a purchase raises the buyer's credits by the package's amount and no one else's |
| CreditPackageController.DeleteCreditPackage | week7_01/controllers/creditPackage.js:68-82 | it answers 400 with the "fields" message exactly for a blank key and with the "id" message exactly for an unknown one, and refuses for no other reason; success removes exactly the rows with that key and keeps every other row |
| CreditPackageController.PurchaseSurvivesPackageRemoval | week7_01/controllers/creditPackage.js:68-82 | after buying a package and then removing it, the buyer keeps the credits the purchase gave |
| UserController.PostUser | week7_01/controllers/user.js:15-59 | it answers 400 exactly when the validator reported errors and 409 exactly for a taken email, and refuses for no other reason; otherwise it appends one USER row with a new key and returns its key and name with 201 |
| UserController.SignupKeepsUnique | week7_01/controllers/user.js:30-58 | sign-up keeps user keys and emails unique |
| UserController.PostUserLogin | week7_01/controllers/user.js:60-94 | login is read-only; it fails, with one message for both causes, exactly when the email is unknown or the string password does not match the first user with that email; it throws exactly when that user exists and the password is not a string, which bcrypt's comparison refuses |
| UserController.LoginAfterSignup | week7_01/controllers/user.js:15-94 | after a successful sign-up, logging in with that email and a matching password succeeds |
| UserController.GetUser | week7_01/controllers/user.js:95-108 | it answers 400 for a blank caller; otherwise it returns the first matching user's name and email, or null when there is none |
| UserController.SignedUpReadable | week7_01/controllers/user.js:15-108 | after a successful sign-up, reading the profile with the returned key gives the name and email just signed up with |
| UserController.PutUser | week7_01/controllers/user.js:109-164 | the reply for a blank name, a missing user, an unchanged name, validator errors and a rename each comes with its exact condition; a refusal leaves the store as it was |
| UserController.RenameKeepsAccounts | week7_01/controllers/user.js:143-155 | a rename keeps every key, email, password and role |
| UserController.RereadAfterRename | week7_01/controllers/user.js:143-163 | after the conditional rename, reading the caller's row again finds it, carrying the new name |
| UserController.RenameTwiceRejected | week7_01/controllers/user.js:129-141 | renaming to the name just set is refused as unchanged |
| SkillController.GetSkills | week7_01/controllers/skill.js:8-13 | the list holds exactly the skill rows and changes nothing |
| SkillController.CreatedSkillListed | week7_01/controllers/skill.js:8-40 | a skill just created is in the next skill list |
| SkillController.PostSkill | week7_01/controllers/skill.js:14-40 | it answers 400 exactly for validator errors and 409 exactly for a taken name, and refuses for no other reason; otherwise it appends one skill under a new key |
| SkillController.PostSkillKeepsUnique | week7_01/controllers/skill.js:29-39 | creating skills keeps skill keys and names unique |
| SkillController.DeleteSkill | week7_01/controllers/skill.js:41-53 | it is refused exactly for a blank or unknown key; success removes exactly the rows with that key |
| SkillController.DeletingUsedSkillBreaksCourseList | week7_01/controllers/skill.js:41-53 | removing a skill that a course uses makes the course list throw |
| CoachController.RejectsPageNumber | week7_01/controllers/coach.js:14-23 | a parsed page number is rejected exactly when it is not a whole number (NaN or an infinity) |
| CoachController.PageOf | week7_01/controllers/coach.js:25-29 | a page holds the rows `per*(page-1)` onwards, at most `per` of them, in order |
| CoachController.RowOnItsPage | week7_01/controllers/coach.js:25-29 | row i of the table is entry i mod per of page i div per + 1 |
| CoachController.GetCoaches | week7_01/controllers/coach.js:9-38 | the coach list is read-only; it answers 400 exactly when either query value does not parse to a whole number; on success it has one entry per coach row of that page, naming each row's user; for a positive size and number it throws exactly when some coach on the page has no user row |
| CoachController.OverflowingNumberRefused | week7_01/controllers/coach.js:10-23 | a query value that parses beyond the double range is refused by the `% 1` test |
| CoachController.MissingPageRefused | week7_01/controllers/coach.js:10-23 | a request without a page parameter is refused with 400 |
| CoachController.GetCoachId | week7_01/controllers/coach.js:39-87 | it answers 400 exactly for a blank key and exactly for an unknown one, with no other refusal; it throws exactly when the first coach with that key has no user row; on success it returns that first coach with the name and role of the first user row it points to |
| Requests.UpdateCourseKeepsIff | week7_01/controllers/admin.js:52-110 | on a consistent store, a course update leaves the store consistent exactly when the new size covers the course's active bookings |
| Requests.StepKeepsConsistent | week7_01/controllers/course.js:47-130 | every request except a course update that shrinks a course below its bookings keeps the store consistent |
| Requests.RunKeepsConsistent | week7_01/controllers/course.js:47-130 | any sequence of requests without course updates keeps a consistent store consistent |
| Requests.StepKeepsHistory | week7_01/controllers/course.js:99-130 | no request deletes a booking or course row, moves a booking to another user or course, or re-keys a course: cancelling only stamps `cancelledAt` |
| Requests.RunKeepsHistory | week7_01/controllers/course.js:99-130 | the same holds for any sequence of requests |

## Left out

- The database and ORM are modelled as sequences of rows. The model does not cover transactions, concurrent requests, or the order rows come back in beyond table order. It also does not cover key formats: a key that is not a uuid makes the database throw, and that case is not modelled.
- Two requests racing on the booking checks are not modelled. The checks read, then write, with no lock, so two parallel bookings could both pass.
- Password hashing, password comparison and token signing are parameters (`passwordHash`, `matches`, `token`). Their algorithms are not modelled.
- The request-body validator of the sign-up, rename and skill handlers is a parameter: the list of error messages it produced. The validator rules are not modelled.
- Authentication middleware, the coach-only guard and route wiring are not modelled. Handlers take the caller's key as an input.
- The week-6 `users.js`, `creditPackage.js`, `admin.js` and `skill.js` routes, and the week-5 and week-4 files, are earlier copies of the week-7 handlers and are not modelled separately. The week-6 cancel route is the same code as `CourseController.DeleteCourse`.
- No foreign-key constraint is modelled. A skill or credit package row is removed even while a course or a purchase still points to it (week7_01/controllers/skill.js:41-53, week7_01/controllers/creditPackage.js:68-82). SkillController.DeleteSkill, CreditPackageController.DeleteCreditPackage, SkillController.DeletingUsedSkillBreaksCourseList and CreditPackageController.PurchaseSurvivesPackageRemoval rest on this. With a restricting foreign key the delete would throw instead.
- Timestamps come from a `now` parameter. The clock is not modelled.
- Logging calls are left out.
- Numbers are exact integers. A number above 2^53 loses precision in JavaScript, but here it is exact. `per*(page-1)` is computed exactly.
- String lengths count code points, not UTF-16 code units. They differ only outside the Basic Multilingual Plane.
- CoachController.GetCoaches: when `per` or `page` is zero or negative, the ORM's behaviour for `take`/`skip` is not part of this model, and the reply is modelled as `Fault`. A query key given twice (an array) is not modelled.
- UserController.PostUserLogin: when the email field is absent, the ORM's lookup with an undefined condition is not modelled. The email is always a string here. The password is the body's field as sent (a string, a number, absent …); the password-format check on the login route is not modelled, and the handler does not read its result.
- CoachController.GetCoachId: the `created_at` and `updated_at` columns of the reply are not modelled.
- ValidUtils.IsValidPassword has no contract of its own. Its meaning is stated by `ValidUtils.PasswordMeaning`, for single-line input. Input with a line break, where `.` stops matching, is covered only by the definition.
- AdminController.PutAdmin: the "update failed" reply is unreachable in the model. The owner check just found the row, so the update always changes at least one row.
- AdminController.PromoteUser: roles are only USER and COACH, and requests run one at a time. So once the lookup finds a first row that is not a COACH, the conditional role update always changes a row, and the "update failed" (更新使用者失敗) reply is unreachable in the model. A role column holding another value, or a concurrent write between the lookup and the update, is not modelled.
- UserController.PutUser: requests run one at a time, so the rename's conditional update on (key, old name) always finds the row the handler just read. The "update failed" (更新使用者資料失敗) reply is unreachable in the model. A concurrent rename between the lookup and the update is not modelled.
- ValidUtils.IsValidPassword: the pattern's `{8,16}` reads like a 16-character cap, but the pattern has no anchors, so longer passwords match too. The model follows the pattern as written; the anchored reading is stated apart (see Findings).

## Findings

| source | as written | input that shows it | evidently intended | confidence | as-written member | corrected member |
|---|---|---|---|---|---|---|
| week6_01/routes/course.js:30-39 | the duplicate-booking check matches any booking row of the (user, course) pair, including cancelled ones | a user books a course, cancels it, then books it again: the second booking is refused as already booked | only an active booking should block, as the later version checks with `cancelledAt IS NULL` | high, not executed | CourseRoutesV6.CancelledCourseBlockedLaterV6 | BookingRules.CancelThenRebook |
| week6_01/utils/validUtils.js:3 | the password pattern has no `^`/`$` anchors, so `.{8,16}` only needs some 8 characters | "Abcdefgh123456789" (17 characters) is accepted | passwords of 8 to 16 characters | medium, not executed | ValidUtils.PasswordLongerThanSixteenAccepted | ValidUtils.IsValidPasswordAnchored |
