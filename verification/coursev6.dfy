/**
  The earlier version of the booking route. It runs the same checks in the
  same order as PostCourse except the duplicate check: it looks for ANY
  booking row of the (user, course) pair, cancelled or not. Its cancel route
  is the same code as DeleteCourse.

  Consequence: in this version a user who once cancelled a course can never
  book it again, although the ledger would allow it (compare
  BookingRules.CancelThenRebook).
 */
module CourseRoutesV6 {
  import opened JsValues
  import opened Entities
  import opened Envelope
  import opened Repository
  import opened Ledger
  import opened CourseController
  import opened BookingRules
  import opened Requests

  /** Booking rows of the pair, whatever their `cancelledAt`. */
  function RowsOfPair(bs: seq<CourseBooking>, u: Id, c: Id): nat {
    CountWhere(bs, PairAny(u, c))
  }

  function PostCourseV6(st: Store, userId: Id, courseId: Id): (r: Handled)
    ensures !r.response.Fault?
    ensures r.response.Failed? ==> r.store == st && r.response.code == 400
    ensures r.response == Failed(400, MsgIdError) <==> !CourseExists(st, courseId)
    ensures r.response == Failed(400, MsgAlreadyBooked) <==>
      CourseExists(st, courseId) && RowsOfPair(st.bookings, userId, courseId) > 0
    ensures r.response == Failed(400, MsgNoCredit) <==>
      && CourseExists(st, courseId) && RowsOfPair(st.bookings, userId, courseId) == 0
      && ActiveOfUser(st.bookings, userId) >= Credits(st.purchases, userId)
    ensures r.response == Failed(400, MsgCourseFull) <==>
      && RowsOfPair(st.bookings, userId, courseId) == 0
      && ActiveOfUser(st.bookings, userId) < Credits(st.purchases, userId)
      && exists k :: IsFirst(st.courses, CourseWithId(courseId), k)
           && ActiveOfCourse(st.bookings, courseId) >= st.courses[k].maxParticipants
    ensures r.response.Failed? ==> r.response.msg in {MsgIdError, MsgAlreadyBooked, MsgNoCredit, MsgCourseFull}
    ensures r.response.Success? ==>
      && r.response == Success(201, NullData)
      && RowsOfPair(st.bookings, userId, courseId) == 0
      && ActiveOfUser(st.bookings, userId) < Credits(st.purchases, userId)
      && (exists k :: 0 <= k < |st.courses| && st.courses[k].id == courseId
           && ActiveOfCourse(st.bookings, courseId) < st.courses[k].maxParticipants)
      && AddsOneBooking(st, r.store, userId, courseId)
  {
    var course := FindFirst(st.courses, CourseWithId(courseId));
    if course.None? then
      Handled(Failed(400, MsgIdError), st)
    else if FindFirst(st.bookings, PairAny(userId, courseId)).Some? then
      Handled(Failed(400, MsgAlreadyBooked), st)
    else
      var userCredit := PurchasedSum(st.purchases, userId);
      var userUsedCredit := ActiveOfUser(st.bookings, userId);
      var courseBookingCount := ActiveOfCourse(st.bookings, courseId);
      if userUsedCredit >= NullAsZero(userCredit) then
        Handled(Failed(400, MsgNoCredit), st)
      else if courseBookingCount >= course.value.maxParticipants then
        Handled(Failed(400, MsgCourseFull), st)
      else
        var booking := CourseBooking(FreshId(BookingIds(st.bookings)), userId, courseId, None);
        Handled(Success(201, NullData), st.(bookings := st.bookings + [booking]))
  }

  lemma {:induction false} PairActiveAtMostAny(bs: seq<CourseBooking>, u: Id, c: Id)
    ensures ActiveOfPair(bs, u, c) <= RowsOfPair(bs, u, c)
  {
    if |bs| > 0 {
      PairActiveAtMostAny(bs[1..], u, c);
    }
  }

  /** Where the pair has no row at all, the two versions answer and act identically. */
  lemma AgreesWithoutHistory(st: Store, u: Id, c: Id)
    requires RowsOfPair(st.bookings, u, c) == 0
    ensures PostCourseV6(st, u, c) == PostCourse(st, u, c)
  {
    PairActiveAtMostAny(st.bookings, u, c);
  }

  /** So the earlier version keeps the ledger promises too: it only ever books where the current one would. */
  lemma BookingV6KeepsLedger(st: Store, u: Id, c: Id)
    requires LedgerOk(st)
    ensures LedgerOk(PostCourseV6(st, u, c).store)
  {
    if RowsOfPair(st.bookings, u, c) == 0 {
      AgreesWithoutHistory(st, u, c);
      BookingKeepsLedger(st, u, c);
    }
  }

  /** Cancelling keeps the row, so the earlier version refuses the next booking of that course by that user. */
  lemma CancelledCourseBlockedV6(st: Store, u: Id, c: Id, now: Stamp)
    requires BookingsReferToCourses(st)
    requires DeleteCourse(st, u, c, now).response.Success?
    ensures PostCourseV6(DeleteCourse(st, u, c, now).store, u, c).response == Failed(400, MsgAlreadyBooked)
  {
    CancelledCourseBlockedLaterV6(st, u, c, now, []);
  }

  /** The earlier service: every request as Requests.Step handles it, except that a booking goes through PostCourseV6. */
  function StepV6(st: Store, req: Request): Handled {
    if req.BookCourse? then PostCourseV6(st, req.userId, req.courseId) else Step(st, req)
  }

  function RunV6(st: Store, reqs: seq<Request>): Store
    decreases |reqs|
  {
    if |reqs| == 0 then st else RunV6(StepV6(st, reqs[0]).store, reqs[1..])
  }

  lemma StepV6KeepsHistory(st: Store, req: Request)
    ensures KeepsHistory(st, StepV6(st, req).store)
  {
    if req.BookCourse? {
      var st' := PostCourseV6(st, req.userId, req.courseId).store;
      if st' != st {
        BookingsAppendedKeepHistory(st, st');
      }
    } else {
      StepKeepsHistory(st, req);
    }
  }

  lemma {:induction false} RunV6KeepsHistory(st: Store, reqs: seq<Request>)
    ensures KeepsHistory(st, RunV6(st, reqs))
    decreases |reqs|
  {
    if |reqs| > 0 {
      var next := StepV6(st, reqs[0]).store;
      StepV6KeepsHistory(st, reqs[0]);
      RunV6KeepsHistory(next, reqs[1..]);
      assert RunV6(st, reqs) == RunV6(next, reqs[1..]);
    }
  }

  /**
    The cancelled row outlives any later requests, so in the earlier service
    the user can never book that course again, whatever happens in between.
   */
  lemma CancelledCourseBlockedLaterV6(st: Store, u: Id, c: Id, now: Stamp, reqs: seq<Request>)
    requires BookingsReferToCourses(st)
    requires DeleteCourse(st, u, c, now).response.Success?
    ensures PostCourseV6(RunV6(DeleteCourse(st, u, c, now).store, reqs), u, c).response == Failed(400, MsgAlreadyBooked)
  {
    var st' := DeleteCourse(st, u, c, now).store;
    var k := CancelledCourseExists(st, u, c, now);
    assert st'.courses == st.courses;
    assert ActiveOfPair(st.bookings, u, c) > 0;
    var i :| 0 <= i < |st.bookings| && PairActive(u, c)(st.bookings[i]);
    assert PairAny(u, c)(st'.bookings[i]);
    var later := RunV6(st', reqs);
    RunV6KeepsHistory(st', reqs);
    assert later.courses[k].id == c;
    assert PairAny(u, c)(later.bookings[i]);
    RowOfPairBlocks(later, u, c, k, i);
  }

  /** Any row of the pair, on an existing course, makes the earlier version refuse. */
  lemma RowOfPairBlocks(st: Store, u: Id, c: Id, k: nat, i: nat)
    requires k < |st.courses| && st.courses[k].id == c
    requires i < |st.bookings| && PairAny(u, c)(st.bookings[i])
    ensures PostCourseV6(st, u, c).response == Failed(400, MsgAlreadyBooked)
  {
    assert CourseExists(st, c);
  }
}
