/**
  Course listing, booking and cancellation (the course controller).

  Booking runs its checks in a fixed order and the first failing one decides
  the reply: the course must exist, the user must not already hold an active
  booking of it, the user's active bookings must be fewer than the credits
  bought, and the course's active bookings fewer than its `max_participants`.
  Cancelling never deletes a row; it stamps `cancelledAt` on the user's active
  booking of the course.
 */
module CourseController {
  import opened JsValues
  import opened Entities
  import opened Envelope
  import opened Repository
  import opened Ledger

  function CourseWithId(id: Id): Course -> bool {
    (c: Course) => c.id == id
  }

  function UserWithId(id: Id): User -> bool {
    (u: User) => u.id == id
  }

  function SkillWithId(id: Id): Skill -> bool {
    (s: Skill) => s.id == id
  }

  ghost predicate CourseExists(st: Store, c: Id) {
    exists k :: 0 <= k < |st.courses| && st.courses[k].id == c
  }

  /** The store after a successful booking: one active booking of (u, c) under a new key appended, nothing else touched. */
  ghost predicate AddsOneBooking(st: Store, st': Store, u: Id, c: Id) {
    && st' == st.(bookings := st'.bookings)
    && |st'.bookings| == |st.bookings| + 1
    && st'.bookings[..|st.bookings|] == st.bookings
    && var b := st'.bookings[|st.bookings|];
       && b.userId == u && b.courseId == c && b.Active()
       && forall i :: 0 <= i < |st.bookings| ==> st.bookings[i].id != b.id
  }

  // ---------------------------------------------------------------------------
  // getCourses
  // ---------------------------------------------------------------------------

  /** The course's coach (user) row or its skill row is not in the store. */
  predicate MissingJoin(c: Course, users: seq<User>, skills: seq<Skill>) {
    || (forall i :: 0 <= i < |users| ==> users[i].id != c.userId)
    || (forall i :: 0 <= i < |skills| ==> skills[i].id != c.skillId)
  }

  /** `v` is course `c` as listed: its own columns, its coach's name and its skill's name. */
  ghost predicate ViewOf(c: Course, users: seq<User>, skills: seq<Skill>, v: CourseView) {
    && v.id == c.id && v.name == c.name && v.description == c.description
    && v.startAt == c.startAt && v.endAt == c.endAt && v.maxParticipants == c.maxParticipants
    && (exists i :: 0 <= i < |users| && users[i].id == c.userId && users[i].name == v.coachName)
    && (exists i :: 0 <= i < |skills| && skills[i].id == c.skillId && skills[i].name == v.skillName)
  }

  /** One list row, or None when the course's coach or skill row is missing. */
  function JoinCourse(c: Course, users: seq<User>, skills: seq<Skill>): (v: Option<CourseView>)
    ensures v.None? <==> MissingJoin(c, users, skills)
    ensures v.Some? ==> ViewOf(c, users, skills, v.value)
  {
    var coach := FindFirst(users, UserWithId(c.userId));
    var skill := FindFirst(skills, SkillWithId(c.skillId));
    if coach.None? || skill.None? then None
    else Some(CourseView(c.id, c.name, c.description, c.startAt, c.endAt, c.maxParticipants,
                         coach.value.name, skill.value.name))
  }

  /** The list rows, or None as soon as a course's coach or skill row is missing (reading `.name` of null throws). */
  function ViewCourses(courses: seq<Course>, users: seq<User>, skills: seq<Skill>): (r: Option<seq<CourseView>>)
    ensures r.None? <==> exists k :: 0 <= k < |courses| && MissingJoin(courses[k], users, skills)
    ensures r.Some? ==> |r.value| == |courses| && forall k :: 0 <= k < |courses| ==> ViewOf(courses[k], users, skills, r.value[k])
  {
    if |courses| == 0 then Some([])
    else
      var view := JoinCourse(courses[0], users, skills);
      var rest := ViewCourses(courses[1..], users, skills);
      MissingJoinSplits(courses, users, skills);
      if view.None? || rest.None? then None
      else
        ViewsCons(courses, users, skills, view.value, rest.value);
        Some([view.value] + rest.value)
  }

  /** Row views of the first course and of the rest make row views of the whole list. */
  lemma ViewsCons(courses: seq<Course>, users: seq<User>, skills: seq<Skill>, v: CourseView, vs: seq<CourseView>)
    requires |courses| > 0 && ViewOf(courses[0], users, skills, v)
    requires |vs| == |courses| - 1 && forall k :: 0 <= k < |vs| ==> ViewOf(courses[1..][k], users, skills, vs[k])
    ensures forall k :: 0 <= k < |courses| ==> ViewOf(courses[k], users, skills, ([v] + vs)[k])
  {
    forall k | 1 <= k < |courses| ensures ViewOf(courses[k], users, skills, ([v] + vs)[k]) {
      assert courses[k] == courses[1..][k - 1] && ([v] + vs)[k] == vs[k - 1];
    }
  }

  /** A missing join is in the first course or in the rest. */
  lemma MissingJoinSplits(courses: seq<Course>, users: seq<User>, skills: seq<Skill>)
    requires |courses| > 0
    ensures (exists k :: 0 <= k < |courses| && MissingJoin(courses[k], users, skills)) <==>
      MissingJoin(courses[0], users, skills) || exists k :: 0 <= k < |courses[1..]| && MissingJoin(courses[1..][k], users, skills)
  {
    assert forall k :: 1 <= k < |courses| ==> courses[k] == courses[1..][k - 1];
    if exists k :: 0 <= k < |courses[1..]| && MissingJoin(courses[1..][k], users, skills) {
      var k :| 0 <= k < |courses[1..]| && MissingJoin(courses[1..][k], users, skills);
      assert MissingJoin(courses[k + 1], users, skills);
    }
  }

  /** The public course list with coach and skill names; read-only. */
  function GetCourses(st: Store): (r: Handled)
    ensures r.store == st
    ensures r.response.Success? || r.response.Fault?
    ensures r.response.Success? ==> r.response.code == 200 && r.response.data.CourseList?
    ensures r.response.Fault? <==> ViewCourses(st.courses, st.users, st.skills).None?
  {
    var views := ViewCourses(st.courses, st.users, st.skills);
    if views.None? then Handled(Fault, st)
    else Handled(Success(200, CourseList(views.value)), st)
  }

  // ---------------------------------------------------------------------------
  // postCourse: book a course
  // ---------------------------------------------------------------------------

  function PostCourse(st: Store, userId: Id, courseId: Id): (r: Handled)
    ensures !r.response.Fault?
    ensures r.response.Failed? ==> r.store == st && r.response.code == 400
    ensures r.response == Failed(400, MsgIdError) <==> !CourseExists(st, courseId)
    ensures r.response == Failed(400, MsgAlreadyBooked) <==>
      CourseExists(st, courseId) && ActiveOfPair(st.bookings, userId, courseId) > 0
    ensures r.response == Failed(400, MsgNoCredit) <==>
      && CourseExists(st, courseId) && ActiveOfPair(st.bookings, userId, courseId) == 0
      && ActiveOfUser(st.bookings, userId) >= Credits(st.purchases, userId)
    ensures r.response == Failed(400, MsgCourseFull) <==>
      && ActiveOfPair(st.bookings, userId, courseId) == 0
      && ActiveOfUser(st.bookings, userId) < Credits(st.purchases, userId)
      && exists k :: IsFirst(st.courses, CourseWithId(courseId), k)
           && ActiveOfCourse(st.bookings, courseId) >= st.courses[k].maxParticipants
    ensures r.response.Failed? ==> r.response.msg in {MsgIdError, MsgAlreadyBooked, MsgNoCredit, MsgCourseFull}
    ensures r.response.Success? ==>
      && r.response == Success(201, NullData)
      && ActiveOfPair(st.bookings, userId, courseId) == 0
      && ActiveOfUser(st.bookings, userId) < Credits(st.purchases, userId)
      && (exists k :: 0 <= k < |st.courses| && st.courses[k].id == courseId
           && ActiveOfCourse(st.bookings, courseId) < st.courses[k].maxParticipants)
      && AddsOneBooking(st, r.store, userId, courseId)
  {
    var course := FindFirst(st.courses, CourseWithId(courseId));
    if course.None? then
      Handled(Failed(400, MsgIdError), st)
    else if FindFirst(st.bookings, PairActive(userId, courseId)).Some? then
      Handled(Failed(400, MsgAlreadyBooked), st)
    else
      var userCredit := PurchasedSum(st.purchases, userId);
      var userUsedCredit := ActiveOfUser(st.bookings, userId);
      var courseBookingCount := ActiveOfCourse(st.bookings, courseId);
      if userUsedCredit >= NullAsZero(userCredit) then
        Handled(Failed(400, MsgNoCredit), st)
      else if courseBookingCount >= course.value.maxParticipants then
        Handled(Failed(400, MsgCourseFull), st)
      else
        var booking := CourseBooking(FreshId(BookingIds(st.bookings)), userId, courseId, None);
        Handled(Success(201, NullData), st.(bookings := st.bookings + [booking]))
  }

  // ---------------------------------------------------------------------------
  // deleteCourse: cancel a booking
  // ---------------------------------------------------------------------------

  function DeleteCourse(st: Store, userId: Id, courseId: Id, now: Stamp): (r: Handled)
    ensures !r.response.Fault?
    ensures r.response.Failed? ==> r.store == st && r.response.code == 400
    ensures r.response == Failed(400, MsgCourseNotFound) <==> ActiveOfPair(st.bookings, userId, courseId) == 0
    ensures r.response.Failed? ==> r.response == Failed(400, MsgCourseNotFound)
    ensures r.response.Success? ==>
      && r.response == Success(200, NullData)
      && r.store == st.(bookings := r.store.bookings)
      && |r.store.bookings| == |st.bookings|
      && forall i :: 0 <= i < |st.bookings| ==>
           r.store.bookings[i] ==
             if st.bookings[i].userId == userId && st.bookings[i].courseId == courseId && st.bookings[i].Active()
             then st.bookings[i].(cancelledAt := Some(now))
             else st.bookings[i]
  {
    if FindFirst(st.bookings, PairActive(userId, courseId)).None? then
      Handled(Failed(400, MsgCourseNotFound), st)
    else
      var updateResult := UpdateWhere(st.bookings, PairActive(userId, courseId), StampCancelled(now));
      if updateResult.1 == 0 then
        Handled(Failed(400, MsgCancelFailed), st)
      else
        Handled(Success(200, NullData), st.(bookings := updateResult.0))
  }
}
