/**
  The booking and credit ledger: which bookings are active, how many credits a
  user has bought, and the three promises the booking rules are meant to keep.

  - at most one active booking per (user, course);
  - a course's active bookings never exceed its `max_participants`;
  - a user's active bookings never exceed the credits the user has bought.

  Counting is done exactly as the handlers ask the repository: a `count` with
  `cancelledAt IS NULL`, and a `sum` of `purchased_credits`, which is null when
  the user has no purchase.
 */
module Ledger {
  import opened JsValues
  import opened Entities
  import opened Repository

  /** `{user_id: u, cancelledAt: IsNull()}` */
  function UserActive(u: Id): CourseBooking -> bool {
    (b: CourseBooking) => b.userId == u && b.Active()
  }

  /** `{course_id: c, cancelledAt: IsNull()}` */
  function CourseActive(c: Id): CourseBooking -> bool {
    (b: CourseBooking) => b.courseId == c && b.Active()
  }

  /** `{user_id: u, course_id: c, cancelledAt: IsNull()}` */
  function PairActive(u: Id, c: Id): CourseBooking -> bool {
    (b: CourseBooking) => b.userId == u && b.courseId == c && b.Active()
  }

  /** `{user_id: u, course_id: c}`, cancelled or not. */
  function PairAny(u: Id, c: Id): CourseBooking -> bool {
    (b: CourseBooking) => b.userId == u && b.courseId == c
  }

  /** The credits a user has spent: the user's active bookings over all courses. */
  function ActiveOfUser(bs: seq<CourseBooking>, u: Id): nat {
    CountWhere(bs, UserActive(u))
  }

  /** The seats taken on a course. */
  function ActiveOfCourse(bs: seq<CourseBooking>, c: Id): nat {
    CountWhere(bs, CourseActive(c))
  }

  function ActiveOfPair(bs: seq<CourseBooking>, u: Id, c: Id): nat {
    CountWhere(bs, PairActive(u, c))
  }

  /** `sum("purchased_credits", {user_id: u})`: null when no row matches. */
  function PurchasedSum(ps: seq<CreditPurchase>, u: Id): Option<int> {
    if |ps| == 0 then None
    else
      var rest := PurchasedSum(ps[1..], u);
      if ps[0].userId == u then Some(ps[0].purchasedCredits + NullAsZero(rest)) else rest
  }

  /** A null operand of `>=` converts to the number 0. */
  function NullAsZero(o: Option<int>): int {
    if o.Some? then o.value else 0
  }

  /** The credits a user has bought, as the booking check compares them. */
  function Credits(ps: seq<CreditPurchase>, u: Id): int {
    NullAsZero(PurchasedSum(ps, u))
  }

  /** The change `{cancelledAt: now}`. */
  function StampCancelled(now: Stamp): CourseBooking -> CourseBooking {
    (b: CourseBooking) => b.(cancelledAt := Some(now))
  }

  // ---------------------------------------------------------------------------
  // The three ledger promises
  // ---------------------------------------------------------------------------

  ghost predicate AtMostOneActive(bs: seq<CourseBooking>) {
    forall u, c :: ActiveOfPair(bs, u, c) <= 1
  }

  ghost predicate WithinCapacity(courses: seq<Course>, bs: seq<CourseBooking>) {
    forall k :: 0 <= k < |courses| ==> ActiveOfCourse(bs, courses[k].id) <= courses[k].maxParticipants
  }

  ghost predicate WithinCredits(ps: seq<CreditPurchase>, bs: seq<CourseBooking>) {
    forall u :: ActiveOfUser(bs, u) <= Credits(ps, u)
  }

  // ---------------------------------------------------------------------------
  // How the counts move
  // ---------------------------------------------------------------------------

  /** A user without purchases has a null sum, hence 0 credits; each purchase adds its credits to its own user only. */
  lemma {:induction false} CreditsAppend(ps: seq<CreditPurchase>, p: CreditPurchase, u: Id)
    ensures PurchasedSum([], u) == None
    ensures Credits(ps + [p], u) == Credits(ps, u) + (if p.userId == u then p.purchasedCredits else 0)
  {
    if |ps| > 0 {
      assert (ps + [p])[1..] == ps[1..] + [p];
      CreditsAppend(ps[1..], p, u);
    } else {
      assert ps + [p] == [p];
      assert [p][1..] == [];
    }
  }

  /** Appending one active booking of (u, c) adds one to u's count, c's count and the pair's count, and nothing elsewhere. */
  lemma AppendActive(bs: seq<CourseBooking>, b: CourseBooking, x: Id, y: Id)
    requires b.Active()
    ensures ActiveOfUser(bs + [b], x) == ActiveOfUser(bs, x) + (if b.userId == x then 1 else 0)
    ensures ActiveOfCourse(bs + [b], y) == ActiveOfCourse(bs, y) + (if b.courseId == y then 1 else 0)
    ensures ActiveOfPair(bs + [b], x, y) == ActiveOfPair(bs, x, y) + (if b.userId == x && b.courseId == y then 1 else 0)
  {
    CountAppend(bs, [b], UserActive(x));
    CountAppend(bs, [b], CourseActive(y));
    CountAppend(bs, [b], PairActive(x, y));
    assert [b][1..] == [];
  }

  /** Stamping the active bookings of (u, c) takes exactly those bookings out of every count. */
  lemma {:induction false} CancelCounts(bs: seq<CourseBooking>, u: Id, c: Id, now: Stamp, x: Id, y: Id)
    ensures var after := UpdateWhere(bs, PairActive(u, c), StampCancelled(now)).0;
      && ActiveOfUser(after, x) == ActiveOfUser(bs, x) - (if x == u then ActiveOfPair(bs, u, c) else 0)
      && ActiveOfCourse(after, y) == ActiveOfCourse(bs, y) - (if y == c then ActiveOfPair(bs, u, c) else 0)
      && ActiveOfPair(after, x, y) == ActiveOfPair(bs, x, y) - (if x == u && y == c then ActiveOfPair(bs, u, c) else 0)
  {
    if |bs| > 0 {
      CancelCounts(bs[1..], u, c, now, x, y);
      var after := UpdateWhere(bs, PairActive(u, c), StampCancelled(now)).0;
      assert after[1..] == UpdateWhere(bs[1..], PairActive(u, c), StampCancelled(now)).0;
    }
  }

  lemma {:induction false} PairAtMostUser(bs: seq<CourseBooking>, u: Id, c: Id)
    ensures ActiveOfPair(bs, u, c) <= ActiveOfUser(bs, u)
    ensures ActiveOfPair(bs, u, c) <= ActiveOfCourse(bs, c)
  {
    if |bs| > 0 {
      PairAtMostUser(bs[1..], u, c);
    }
  }
}
