/**
  What the administration handlers do to the store's promises: a course
  update keeps every course within its capacity exactly when the new
  `max_participants` still covers the course's active bookings, and a
  promotion keeps the coach table consistent with the users' roles.
 */
module AdminRules {
  import opened JsValues
  import opened Entities
  import opened Envelope
  import opened Ledger
  import opened ValidUtils
  import opened AdminController
  import opened CoachController
  import opened Repository
  import opened CourseController

  /** Resizing the courses with key `courseId` to `m` seats keeps the capacity promise exactly when `m` covers their active bookings. */
  lemma {:induction false} CapacityAfterResize(cs: seq<Course>, cs': seq<Course>, bs: seq<CourseBooking>, courseId: Id, m: int)
    requires WithinCapacity(cs, bs)
    requires exists k :: 0 <= k < |cs| && cs[k].id == courseId
    requires |cs'| == |cs|
    requires forall k :: 0 <= k < |cs| ==>
      if cs[k].id == courseId then cs'[k].id == courseId && cs'[k].maxParticipants == m else cs'[k] == cs[k]
    ensures WithinCapacity(cs', bs) <==> ActiveOfCourse(bs, courseId) <= m
  {
    var k :| 0 <= k < |cs| && cs[k].id == courseId;
    if ActiveOfCourse(bs, courseId) <= m {
      forall j | 0 <= j < |cs'| ensures ActiveOfCourse(bs, cs'[j].id) <= cs'[j].maxParticipants {
        if cs[j].id != courseId {
          assert cs'[j] == cs[j];
        }
      }
    } else {
      assert cs'[k].id == courseId && cs'[k].maxParticipants == m;
    }
  }

  /**
    After a successful update the capacity promise survives if and only if the
    course's active bookings fit the new size. The update checks no such thing,
    so lowering the size below the seats already taken breaks the promise.
   */
  lemma UpdateKeepsCapacityIff(st: Store, callerId: Id, courseId: Id, body: CourseBody)
    requires WithinCapacity(st.courses, st.bookings)
    requires PutAdmin(st, callerId, courseId, body).response.Success?
    ensures var after := PutAdmin(st, callerId, courseId, body).store;
      WithinCapacity(after.courses, after.bookings) <==>
      ActiveOfCourse(st.bookings, courseId) <= body.maxParticipants.n.i
  {
    var after := PutAdmin(st, callerId, courseId, body).store;
    CapacityAfterResize(st.courses, after.courses, st.bookings, courseId, body.maxParticipants.n.i);
  }

  /** An owner's valid update that sets the size below the seats already taken succeeds, and leaves the course overbooked. */
  lemma UpdateCanOverbook(st: Store, callerId: Id, courseId: Id, body: CourseBody)
    requires WithinCapacity(st.courses, st.bookings)
    requires exists k :: 0 <= k < |st.courses| && st.courses[k].id == courseId && st.courses[k].userId == callerId
    requires NonBlankString(Str(courseId)) && AcceptableCourseBody(body)
    requires body.maxParticipants.n.i < ActiveOfCourse(st.bookings, courseId)
    ensures PutAdmin(st, callerId, courseId, body).response.Success?
    ensures !WithinCapacity(PutAdmin(st, callerId, courseId, body).store.courses, st.bookings)
  {
    var r := PutAdmin(st, callerId, courseId, body);
    assert r.response != Failed(400, MsgCourseNotFound);
    UpdateKeepsCapacityIff(st, callerId, courseId, body);
  }

  /** Every coach row belongs to a user whose role is COACH, and no user has two coach rows. */
  ghost predicate CoachesConsistent(st: Store) {
    && Distinct(UserIds(st.users))
    && Distinct(CoachIds(st.coaches))
    && (forall j :: 0 <= j < |st.coaches| ==>
          exists k :: 0 <= k < |st.users| && st.users[k].id == st.coaches[j].userId && st.users[k].role == COACH)
    && (forall i, j :: 0 <= i < j < |st.coaches| ==> st.coaches[i].userId != st.coaches[j].userId)
  }

  /** The roles and coach rows after a promotion of `userId`: its role flips to COACH and one coach row of it is appended. */
  lemma {:induction false} PromotionTablesConsistent(st: Store, st': Store, coach: Coach, userId: Id)
    requires CoachesConsistent(st)
    requires exists u :: 0 <= u < |st.users| && st.users[u].id == userId && st.users[u].role == USER
    requires forall k :: 0 <= k < |st.coaches| ==> st.coaches[k].id != coach.id
    requires coach.userId == userId && Promotes(st, userId, coach, st')
    ensures CoachesConsistent(st')
  {
    var users, users', coaches := st.users, st'.users, st.coaches;
    var u :| 0 <= u < |users| && users[u].id == userId && users[u].role == USER;
    var after := st'.coaches;
    assert UserIds(users') == UserIds(users);
    forall j | 0 <= j < |coaches| ensures coaches[j].userId != userId {
      var k :| 0 <= k < |users| && users[k].id == coaches[j].userId && users[k].role == COACH;
      assert k != u;
      assert UserIds(users)[k] != UserIds(users)[u];
    }
    forall j | 0 <= j < |after|
      ensures exists k :: 0 <= k < |users'| && users'[k].id == after[j].userId && users'[k].role == COACH
    {
      if j == |coaches| {
        assert users'[u].id == after[j].userId && users'[u].role == COACH;
      } else {
        var k :| 0 <= k < |users| && users[k].id == coaches[j].userId && users[k].role == COACH;
        assert users'[k].role == COACH;
      }
    }
    forall i, j | 0 <= i < j < |after| ensures CoachIds(after)[i] != CoachIds(after)[j] {
      if j == |coaches| {
        assert CoachIds(after)[i] == coaches[i].id;
      } else {
        assert CoachIds(after)[i] == CoachIds(coaches)[i];
        assert CoachIds(after)[j] == CoachIds(coaches)[j];
      }
    }
    assert forall i, j :: 0 <= i < j < |after| ==> after[i].userId != after[j].userId;
  }

  /** A promotion, successful or not, keeps the coach table consistent with the roles. */
  lemma PromotionKeepsCoaches(st: Store, userId: Id, body: CoachBody)
    requires CoachesConsistent(st)
    ensures CoachesConsistent(PostAdminAsCoach(st, userId, body).store)
  {
    var r := PostAdminAsCoach(st, userId, body);
    if r.response.Success? {
      PromotionTablesConsistent(st, r.store, r.response.data.coach, userId);
    }
  }

  /** The detail read on the tables a promotion leaves: the new coach row and its user, now a COACH. */
  lemma {:induction false} ReadAfterPromotion(st: Store, after: Store, coach: Coach, userId: Id)
    requires exists u :: 0 <= u < |st.users| && st.users[u].id == userId
    requires forall k :: 0 <= k < |st.coaches| ==> st.coaches[k].id != coach.id
    requires |coach.id| > 0 && !IsJsWhitespace(coach.id[0])
    requires coach.userId == userId && Promotes(st, userId, coach, after)
    ensures var detail := GetCoachId(after, coach.id).response;
      && detail.Success? && detail.data.coach == coach && detail.data.role == COACH
      && exists k :: IsFirst(st.users, UserWithId(userId), k) && detail.data.userName == st.users[k].name
  {
    var n := |st.coaches|;
    assert after.coaches[n] == coach;
    assert IsFirst(after.coaches, CoachWithId(coach.id), n);
    assert NonBlankString(Str(coach.id)) by {
      assert !IsJsWhitespace(coach.id[0]);
    }
    var u :| 0 <= u < |st.users| && st.users[u].id == userId;
    assert after.users[u].id == userId;
    var detail := GetCoachId(after, coach.id).response;
    assert !detail.Fault?;
    var i :| IsFirst(after.users, UserWithId(userId), i)
      && after.users[i].name == detail.data.userName && after.users[i].role == detail.data.role;
    assert IsFirst(st.users, UserWithId(userId), i);
  }

  /** A freshly promoted coach can be read back at once: its row, its user's name, and the role COACH. */
  lemma PromotedCoachReadable(st: Store, userId: Id, body: CoachBody)
    requires PostAdminAsCoach(st, userId, body).response.Success?
    ensures var r := PostAdminAsCoach(st, userId, body);
      var detail := GetCoachId(r.store, r.response.data.coach.id).response;
      && detail.Success? && detail.data.coach == r.response.data.coach && detail.data.role == COACH
      && exists k :: IsFirst(st.users, UserWithId(userId), k) && detail.data.userName == st.users[k].name
  {
    var r := PostAdminAsCoach(st, userId, body);
    ReadAfterPromotion(st, r.store, r.response.data.coach, userId);
  }
}
