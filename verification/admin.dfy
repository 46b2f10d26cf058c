/**
  The coach-side administration handlers: creating a course, updating one's
  own course, and promoting a user to coach.

  The routes put the authentication and coach-role guards in front of all
  three; those guards are not part of this model and the caller's id arrives
  as a parameter.
 */
module AdminController {
  import opened JsValues
  import opened Entities
  import opened Envelope
  import opened Repository
  import opened ValidUtils
  import opened CourseController

  /** The course fields of a create or update request body, as JS values. */
  datatype CourseBody = CourseBody(
    skillId: JsValue,
    name: JsValue,
    description: JsValue,
    startAt: JsValue,
    endAt: JsValue,
    maxParticipants: JsValue,
    meetingUrl: JsValue)

  /** The fields a promotion request body carries. */
  datatype CoachBody = CoachBody(
    experienceYears: JsValue,
    description: JsValue,
    profileImageUrl: JsValue)

  /** What the course handlers accept: the five text fields non-blank, a whole non-negative size, an `https` meeting link. */
  predicate AcceptableCourseBody(b: CourseBody) {
    && NonBlankString(b.skillId) && NonBlankString(b.name) && NonBlankString(b.description)
    && NonBlankString(b.startAt) && NonBlankString(b.endAt)
    && NonNegativeInteger(b.maxParticipants)
    && NonBlankString(b.meetingUrl) && StartsWith(b.meetingUrl.s, "https")
  }

  /** The shared validation chain of both course handlers; `key` is the caller id (create) or the course id (update). */
  function CourseFieldsRejected(key: string, b: CourseBody): (rejected: bool)
    ensures rejected <==> !(NonBlankString(Str(key)) && AcceptableCourseBody(b))
  {
    || IsInvalidString(Str(key))
    || IsInvalidString(b.skillId)
    || IsInvalidString(b.name)
    || IsInvalidString(b.description)
    || IsInvalidString(b.startAt)
    || IsInvalidString(b.endAt)
    || IsInvalidInteger(b.maxParticipants)
    || IsInvalidString(b.meetingUrl)
    || !StartsWith(b.meetingUrl.s, "https")
  }

  /** The seven columns an update sets; the key and the owner are kept. */
  function ApplyCourseBody(b: CourseBody): Course -> Course
    requires AcceptableCourseBody(b)
  {
    (c: Course) => c.(skillId := b.skillId.s, name := b.name.s, description := b.description.s,
                      startAt := b.startAt.s, endAt := b.endAt.s,
                      maxParticipants := b.maxParticipants.n.i, meetingUrl := b.meetingUrl.s)
  }

  function OwnedCourse(courseId: Id, owner: Id): Course -> bool {
    (c: Course) => c.id == courseId && c.userId == owner
  }

  // ---------------------------------------------------------------------------
  // postAdminCourses
  // ---------------------------------------------------------------------------

  function PostAdminCourses(st: Store, callerId: Id, body: CourseBody): (r: Handled)
    ensures !r.response.Fault?
    ensures r.response.Failed? <==> !(NonBlankString(Str(callerId)) && AcceptableCourseBody(body))
    ensures r.response.Failed? ==> r.response == Failed(400, MsgFieldsIncorrect) && r.store == st
    ensures r.response.Success? ==>
      && r.response.code == 200 && r.response.data.CourseRow?
      && var c := r.response.data.course;
         && r.store == st.(courses := st.courses + [c])
         && c.userId == callerId
         && c.skillId == body.skillId.s && c.name == body.name.s && c.description == body.description.s
         && c.startAt == body.startAt.s && c.endAt == body.endAt.s
         && c.maxParticipants == body.maxParticipants.n.i && c.meetingUrl == body.meetingUrl.s
         && forall k :: 0 <= k < |st.courses| ==> st.courses[k].id != c.id
  {
    if CourseFieldsRejected(callerId, body) then
      Handled(Failed(400, MsgFieldsIncorrect), st)
    else
      var newCourse := Course(FreshId(CourseIds(st.courses)), callerId, body.skillId.s, body.name.s,
                              body.description.s, body.startAt.s, body.endAt.s,
                              body.maxParticipants.n.i, body.meetingUrl.s);
      Handled(Success(200, CourseRow(newCourse)), st.(courses := st.courses + [newCourse]))
  }

  // ---------------------------------------------------------------------------
  // putAdmin: a coach updates one of their own courses
  // ---------------------------------------------------------------------------

  /** What an update writes: every row with the key takes the body's seven columns, nothing else changes. */
  ghost predicate RewritesCourse(st: Store, courseId: Id, body: CourseBody, st': Store)
    requires AcceptableCourseBody(body)
  {
    && st' == st.(courses := st'.courses)
    && |st'.courses| == |st.courses|
    && forall k :: 0 <= k < |st.courses| ==>
         if st.courses[k].id == courseId then
           var c := st'.courses[k];
           && c.id == courseId && c.userId == st.courses[k].userId
           && c.skillId == body.skillId.s && c.name == body.name.s && c.description == body.description.s
           && c.startAt == body.startAt.s && c.endAt == body.endAt.s
           && c.maxParticipants == body.maxParticipants.n.i && c.meetingUrl == body.meetingUrl.s
         else st'.courses[k] == st.courses[k]
  }

  function PutAdmin(st: Store, callerId: Id, courseId: Id, body: CourseBody): (r: Handled)
    ensures !r.response.Fault?
    ensures r.response.Failed? ==> r.store == st && r.response.code == 400
    ensures r.response == Failed(400, MsgFieldsIncorrect) <==> !(NonBlankString(Str(courseId)) && AcceptableCourseBody(body))
    ensures r.response == Failed(400, MsgCourseNotFound) <==>
      && NonBlankString(Str(courseId)) && AcceptableCourseBody(body)
      && forall k :: 0 <= k < |st.courses| ==> !(st.courses[k].id == courseId && st.courses[k].userId == callerId)
    ensures r.response.Failed? ==> r.response.msg in {MsgFieldsIncorrect, MsgCourseNotFound}
    ensures r.response.Success? ==>
      && AcceptableCourseBody(body)
      && r.response.code == 201
      && (exists k :: 0 <= k < |st.courses| && st.courses[k].id == courseId && st.courses[k].userId == callerId)
      && RewritesCourse(st, courseId, body, r.store)
    ensures r.response.Success? ==>
      && r.response.data.CourseRow?
      && exists k :: IsFirst(r.store.courses, CourseWithId(courseId), k) && r.response.data.course == r.store.courses[k]
  {
    AdminMessagesDiffer();
    if CourseFieldsRejected(courseId, body) then
      Handled(Failed(400, MsgFieldsIncorrect), st)
    else if FindFirst(st.courses, OwnedCourse(courseId, callerId)).None? then
      Handled(Failed(400, MsgCourseNotFound), st)
    else
      var updateCourse := UpdateWhere(st.courses, CourseWithId(courseId), ApplyCourseBody(body));
      if updateCourse.1 == 0 then
        Handled(Failed(400, MsgUpdateCourseFailed), st)
      else
        var st' := st.(courses := updateCourse.0);
        Handled(Success(201, RereadCourse(st'.courses, courseId)), st')
  }

  /** The reply of an update: the first row with the course's key, read again after the update. */
  function RereadCourse(courses: seq<Course>, courseId: Id): (d: Data)
    requires exists k :: 0 <= k < |courses| && courses[k].id == courseId
    ensures d.CourseRow? && exists k :: IsFirst(courses, CourseWithId(courseId), k) && d.course == courses[k]
  {
    var savedCourse := FindFirst(courses, CourseWithId(courseId));
    if savedCourse.Some? then CourseRow(savedCourse.value) else assert false; NullData
  }

  // ---------------------------------------------------------------------------
  // postAdminAsCoach: promote a user to coach
  // ---------------------------------------------------------------------------

  /** `profile_image_url = null` in the destructuring: only an absent key takes the default. */
  function DefaultNull(v: JsValue): JsValue {
    if v.Undefined? then Null else v
  }

  /** A profile image link is refused only when it is a non-blank string not starting with `https`. */
  predicate BadAvatar(url: JsValue) {
    NonBlankString(url) && !StartsWith(url.s, "https")
  }

  function UserIsPlainUser(id: Id): User -> bool {
    (u: User) => u.id == id && u.role == USER
  }

  function MakeCoach(): User -> User {
    (u: User) => u.(role := COACH)
  }

  /** What a promotion writes: the user's role becomes COACH, the coach row is appended, nothing else changes. */
  ghost predicate Promotes(st: Store, userId: Id, coach: Coach, st': Store) {
    && st' == st.(users := st'.users, coaches := st.coaches + [coach])
    && |st'.users| == |st.users|
    && forall k :: 0 <= k < |st.users| ==>
         st'.users[k] == if st.users[k].id == userId then st.users[k].(role := COACH) else st.users[k]
  }

  function PostAdminAsCoach(st: Store, userId: Id, body: CoachBody): (r: Handled)
    ensures !r.response.Fault?
    ensures r.response.Failed? ==> r.store == st
    ensures r.response == Failed(400, MsgFieldsIncorrect) <==>
      !(NonNegativeInteger(body.experienceYears) && NonBlankString(body.description))
    ensures r.response == Failed(400, MsgAvatarUrl) <==>
      && NonNegativeInteger(body.experienceYears) && NonBlankString(body.description)
      && BadAvatar(body.profileImageUrl)
    ensures r.response == Failed(400, MsgUserNotFound) <==>
      && NonNegativeInteger(body.experienceYears) && NonBlankString(body.description)
      && !BadAvatar(body.profileImageUrl)
      && forall k :: 0 <= k < |st.users| ==> st.users[k].id != userId
    ensures r.response == Failed(409, MsgAlreadyCoach) <==>
      && NonNegativeInteger(body.experienceYears) && NonBlankString(body.description)
      && !BadAvatar(body.profileImageUrl)
      && exists k :: IsFirst(st.users, UserWithId(userId), k) && st.users[k].role == COACH
    ensures r.response.Failed? ==> r.response.msg in {MsgFieldsIncorrect, MsgAvatarUrl, MsgUserNotFound, MsgAlreadyCoach}
    ensures r.response.Success? ==>
      && r.response.code == 201 && r.response.data.Promoted?
      && r.response.data.role == COACH
      && (exists k :: 0 <= k < |st.users| && st.users[k].id == userId && st.users[k].role == USER)
      && (exists k :: IsFirst(st.users, UserWithId(userId), k) && r.response.data.userName == st.users[k].name)
      && var coach := r.response.data.coach;
         && coach.userId == userId
         && coach.experienceYears == body.experienceYears.n.i
         && coach.description == body.description.s
         && coach.profileImageUrl == DefaultNull(body.profileImageUrl)
         && coach.id == FreshId(CoachIds(st.coaches))
         && (forall k :: 0 <= k < |st.coaches| ==> st.coaches[k].id != coach.id)
         && Promotes(st, userId, coach, r.store)
  {
    var problem := CoachBodyProblem(body);
    if problem.Some? then Handled(problem.value, st)
    else
      assert NonNegativeInteger(body.experienceYears) && NonBlankString(body.description) && !BadAvatar(body.profileImageUrl);
      var newCoach := Coach(FreshId(CoachIds(st.coaches)), userId, body.experienceYears.n.i,
                            body.description.s, DefaultNull(body.profileImageUrl));
      PromoteUser(st, userId, newCoach)
  }

  /** The two input checks of the promotion, in order: None when both pass. */
  function CoachBodyProblem(body: CoachBody): (r: Option<Response>)
    ensures r.None? <==>
      NonNegativeInteger(body.experienceYears) && NonBlankString(body.description) && !BadAvatar(body.profileImageUrl)
    ensures r == Some(Failed(400, MsgFieldsIncorrect)) <==>
      !(NonNegativeInteger(body.experienceYears) && NonBlankString(body.description))
    ensures r.Some? ==> r.value in {Failed(400, MsgFieldsIncorrect), Failed(400, MsgAvatarUrl)}
  {
    AdminMessagesDiffer();
    var profileImageUrl := DefaultNull(body.profileImageUrl);
    if IsInvalidInteger(body.experienceYears) || IsInvalidString(body.description) then
      Some(Failed(400, MsgFieldsIncorrect))
    else if !IsInvalidString(profileImageUrl) && !StartsWith(profileImageUrl.s, "https") then
      Some(Failed(400, MsgAvatarUrl))
    else None
  }

  /** The user lookup and the role check, then the writes. */
  function PromoteUser(st: Store, userId: Id, newCoach: Coach): (r: Handled)
    ensures !r.response.Fault?
    ensures r.response.Failed? ==> r.store == st
    ensures r.response == Failed(400, MsgUserNotFound) <==> forall k :: 0 <= k < |st.users| ==> st.users[k].id != userId
    ensures r.response.Failed? ==> r.response in {Failed(400, MsgUserNotFound), Failed(409, MsgAlreadyCoach)}
    ensures r.response == Failed(409, MsgAlreadyCoach) <==>
      exists k :: IsFirst(st.users, UserWithId(userId), k) && st.users[k].role == COACH
    ensures r.response.Success? ==>
      && (exists k :: IsFirst(st.users, UserWithId(userId), k) && st.users[k].role == USER)
      && r.response.code == 201
      && r.response.data.Promoted? && r.response.data.role == COACH && r.response.data.coach == newCoach
      && Promotes(st, userId, newCoach, r.store)
      && exists k :: IsFirst(st.users, UserWithId(userId), k) && r.response.data.userName == st.users[k].name
  {
    AdminMessagesDiffer();
    var existingUser := FindFirst(st.users, UserWithId(userId));
    FindsFirst(st.users, UserWithId(userId));
    if existingUser.None? then
      Handled(Failed(400, MsgUserNotFound), st)
    else if existingUser.value.role == COACH then
      Handled(Failed(409, MsgAlreadyCoach), st)
    else
      SaveCoach(st, userId, newCoach)
  }

  /** The conditional role update, the Coach insert and the re-read of the user, once the user is known to be a plain USER. */
  function SaveCoach(st: Store, userId: Id, newCoach: Coach): (r: Handled)
    requires exists k :: 0 <= k < |st.users| && st.users[k].id == userId && st.users[k].role == USER
    ensures r.response.Success? && r.response.code == 201
    ensures r.response.data.Promoted? && r.response.data.role == COACH && r.response.data.coach == newCoach
    ensures Promotes(st, userId, newCoach, r.store)
    ensures exists k :: IsFirst(st.users, UserWithId(userId), k) && r.response.data.userName == st.users[k].name
  {
    var updatedUser := UpdateWhere(st.users, UserIsPlainUser(userId), MakeCoach());
    if updatedUser.1 == 0 then
      Handled(Failed(400, MsgUpdateUserFailed), st)
    else
      var st' := st.(users := updatedUser.0, coaches := st.coaches + [newCoach]);
      Handled(RereadPromoted(st.users, updatedUser.0, userId, newCoach), st')
  }

  /** Row by row, the users after the conditional role update: a plain USER with the key becomes a COACH. */
  ghost predicate RoleUpdated(us: seq<User>, us': seq<User>, userId: Id) {
    && |us'| == |us|
    && forall j :: 0 <= j < |us| ==>
         us'[j] == if us[j].id == userId && us[j].role == USER then us[j].(role := COACH) else us[j]
  }

  /** The reply after the writes: the user row re-read by key, and the saved coach row. */
  function RereadPromoted(us: seq<User>, us': seq<User>, userId: Id, newCoach: Coach): (r: Response)
    requires RoleUpdated(us, us', userId)
    requires exists k :: 0 <= k < |us| && us[k].id == userId
    ensures r.Success? && r.code == 201
    ensures r.data.Promoted? && r.data.role == COACH && r.data.coach == newCoach
    ensures exists k :: IsFirst(us, UserWithId(userId), k) && r.data.userName == us[k].name
  {
    SavedUser(us, us', userId);
    var savedUser := FindFirst(us', UserWithId(userId));
    if savedUser.None? then assert false; Fault
    else Success(201, Promoted(savedUser.value.name, savedUser.value.role, newCoach))
  }

  /**
    The re-read after the role update finds a row: the first row with the key,
    under the name it had before, now a COACH (it was a COACH already or the
    update just made it one).
   */
  lemma SavedUser(us: seq<User>, us': seq<User>, userId: Id)
    requires RoleUpdated(us, us', userId)
    requires exists k :: 0 <= k < |us| && us[k].id == userId
    ensures FindFirst(us', UserWithId(userId)).Some?
    ensures FindFirst(us', UserWithId(userId)).value.role == COACH
    ensures exists k :: IsFirst(us, UserWithId(userId), k) && FindFirst(us', UserWithId(userId)).value.name == us[k].name
  {
    var i :| 0 <= i < |us| && us[i].id == userId;
    assert UserWithId(userId)(us'[i]);
    var v := FindFirst(us', UserWithId(userId)).value;
    var k :| IsFirst(us', UserWithId(userId), k) && us'[k] == v;
    assert forall j :: 0 <= j < |us| ==> us'[j].id == us[j].id;
    assert IsFirst(us, UserWithId(userId), k);
  }
}
