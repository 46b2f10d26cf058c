/**
  What booking and cancelling do to the ledger over many requests: both keep
  the three ledger promises, a cancellation gives back exactly one credit and
  one seat, and a user who cancels can book the same course again straight
  away.
 */
module BookingRules {
  import opened JsValues
  import opened Entities
  import opened Envelope
  import opened Repository
  import opened Ledger
  import opened CourseController

  /** Every booking names a course in the store. */
  ghost predicate BookingsReferToCourses(st: Store) {
    forall i :: 0 <= i < |st.bookings| ==> CourseExists(st, st.bookings[i].courseId)
  }

  /** The ledger promises, plus the key uniqueness and reference facts they rest on. */
  ghost predicate LedgerOk(st: Store) {
    && Distinct(CourseIds(st.courses))
    && BookingsReferToCourses(st)
    && AtMostOneActive(st.bookings)
    && WithinCapacity(st.courses, st.bookings)
    && WithinCredits(st.purchases, st.bookings)
  }

  lemma {:induction false} NoPurchaseNullSum(ps: seq<CreditPurchase>, u: Id)
    requires forall i :: 0 <= i < |ps| ==> ps[i].userId != u
    ensures PurchasedSum(ps, u) == None
    ensures Credits(ps, u) == 0
  {
    if |ps| > 0 {
      NoPurchaseNullSum(ps[1..], u);
    }
  }

  /** With no purchase the credit sum is null, compares as 0, and every booking attempt on an existing course stops at the credit check (or earlier). */
  lemma NoPurchaseNoBooking(st: Store, u: Id, c: Id)
    requires forall i :: 0 <= i < |st.purchases| ==> st.purchases[i].userId != u
    requires CourseExists(st, c)
    ensures PostCourse(st, u, c).response in {Failed(400, MsgAlreadyBooked), Failed(400, MsgNoCredit)}
    ensures PostCourse(st, u, c).store == st
  {
    NoPurchaseNullSum(st.purchases, u);
  }

  lemma AppendKeepsPairs(bs: seq<CourseBooking>, b: CourseBooking)
    requires AtMostOneActive(bs) && b.Active()
    requires ActiveOfPair(bs, b.userId, b.courseId) == 0
    ensures AtMostOneActive(bs + [b])
  {
    forall x, y ensures ActiveOfPair(bs + [b], x, y) <= 1 {
      AppendActive(bs, b, x, y);
    }
  }

  lemma AppendKeepsCredits(ps: seq<CreditPurchase>, bs: seq<CourseBooking>, b: CourseBooking)
    requires WithinCredits(ps, bs) && b.Active()
    requires ActiveOfUser(bs, b.userId) < Credits(ps, b.userId)
    ensures WithinCredits(ps, bs + [b])
  {
    forall x ensures ActiveOfUser(bs + [b], x) <= Credits(ps, x) {
      AppendActive(bs, b, x, b.courseId);
    }
  }

  lemma AppendKeepsCapacity(cs: seq<Course>, bs: seq<CourseBooking>, b: CourseBooking, k: nat)
    requires WithinCapacity(cs, bs) && Distinct(CourseIds(cs)) && b.Active()
    requires k < |cs| && cs[k].id == b.courseId
    requires ActiveOfCourse(bs, b.courseId) < cs[k].maxParticipants
    ensures WithinCapacity(cs, bs + [b])
  {
    forall j | 0 <= j < |cs|
      ensures ActiveOfCourse(bs + [b], cs[j].id) <= cs[j].maxParticipants
    {
      AppendActive(bs, b, b.userId, cs[j].id);
      if cs[j].id == b.courseId {
        assert CourseIds(cs)[j] == CourseIds(cs)[k];
      }
    }
  }

  /** Appending one active booking of (u, c) that passed the booking checks keeps every ledger promise. */
  lemma AppendKeepsLedger(st: Store, b: CourseBooking, k: nat)
    requires LedgerOk(st)
    requires b.Active()
    requires ActiveOfPair(st.bookings, b.userId, b.courseId) == 0
    requires ActiveOfUser(st.bookings, b.userId) < Credits(st.purchases, b.userId)
    requires k < |st.courses| && st.courses[k].id == b.courseId
    requires ActiveOfCourse(st.bookings, b.courseId) < st.courses[k].maxParticipants
    ensures LedgerOk(st.(bookings := st.bookings + [b]))
  {
    var bs := st.bookings;
    var st' := st.(bookings := bs + [b]);
    AppendKeepsPairs(bs, b);
    AppendKeepsCredits(st.purchases, bs, b);
    AppendKeepsCapacity(st.courses, bs, b, k);
    forall i | 0 <= i < |st'.bookings| ensures CourseExists(st', st'.bookings[i].courseId) {
      if i < |bs| {
        assert st'.bookings[i] == bs[i];
        assert CourseExists(st, bs[i].courseId);
      } else {
        assert st'.courses[k].id == st'.bookings[i].courseId;
      }
    }
  }

  /** A successful booking keeps every ledger promise. */
  lemma BookingKeepsLedger(st: Store, u: Id, c: Id)
    requires LedgerOk(st)
    ensures LedgerOk(PostCourse(st, u, c).store)
  {
    var r := PostCourse(st, u, c);
    if r.response.Success? {
      var b := r.store.bookings[|st.bookings|];
      assert r.store == st.(bookings := st.bookings + [b]);
      var k :| 0 <= k < |st.courses| && st.courses[k].id == c
        && ActiveOfCourse(st.bookings, c) < st.courses[k].maxParticipants;
      AppendKeepsLedger(st, b, k);
    }
  }

  /** A cancellation keeps every ledger promise: it only ever lowers counts. */
  lemma CancelKeepsLedger(st: Store, u: Id, c: Id, now: Stamp)
    requires LedgerOk(st)
    ensures LedgerOk(DeleteCourse(st, u, c, now).store)
  {
    var st' := CancelStore(st, u, c, now);
    if st' != st {
      StampKeepsLedger(st, u, c, now);
    }
  }

  /** A cancellation either leaves the store as it was or stamps the pair's active bookings and nothing else. */
  lemma CancelStore(st: Store, u: Id, c: Id, now: Stamp) returns (st': Store)
    ensures st' == DeleteCourse(st, u, c, now).store
    ensures st' != st ==> st' == st.(bookings := UpdateWhere(st.bookings, PairActive(u, c), StampCancelled(now)).0)
  {
    st' := DeleteCourse(st, u, c, now).store;
  }

  /** Stamping the pair's active bookings keeps every ledger promise: it only ever lowers counts. */
  lemma StampKeepsLedger(st: Store, u: Id, c: Id, now: Stamp)
    requires LedgerOk(st)
    ensures LedgerOk(st.(bookings := UpdateWhere(st.bookings, PairActive(u, c), StampCancelled(now)).0))
  {
    var bs := st.bookings;
    var after := UpdateWhere(bs, PairActive(u, c), StampCancelled(now)).0;
    var st' := st.(bookings := after);
    forall x, y ensures ActiveOfPair(after, x, y) <= 1 {
      CancelCounts(bs, u, c, now, x, y);
    }
    forall x ensures ActiveOfUser(after, x) <= Credits(st.purchases, x) {
      CancelCounts(bs, u, c, now, x, c);
    }
    forall k | 0 <= k < |st.courses|
      ensures ActiveOfCourse(after, st.courses[k].id) <= st.courses[k].maxParticipants
    {
      CancelCounts(bs, u, c, now, u, st.courses[k].id);
    }
    assert BookingsReferToCourses(st') by {
      forall i | 0 <= i < |after| ensures CourseExists(st', after[i].courseId) {
        assert after[i].courseId == bs[i].courseId;
      }
    }
  }

  /** Cancelling frees exactly one credit of the user and one seat of the course, and leaves no active booking of the pair. */
  lemma CancelFreesOneCreditAndSeat(st: Store, u: Id, c: Id, now: Stamp, x: Id, y: Id)
    requires AtMostOneActive(st.bookings)
    requires DeleteCourse(st, u, c, now).response.Success?
    ensures var after := DeleteCourse(st, u, c, now).store.bookings;
      && ActiveOfPair(after, u, c) == 0
      && ActiveOfUser(after, u) == ActiveOfUser(st.bookings, u) - 1
      && ActiveOfCourse(after, c) == ActiveOfCourse(st.bookings, c) - 1
      && (x != u ==> ActiveOfUser(after, x) == ActiveOfUser(st.bookings, x))
      && (y != c ==> ActiveOfCourse(after, y) == ActiveOfCourse(st.bookings, y))
  {
    var after := DeleteCourse(st, u, c, now).store.bookings;
    assert after == UpdateWhere(st.bookings, PairActive(u, c), StampCancelled(now)).0;
    assert ActiveOfPair(st.bookings, u, c) == 1;
    CancelCounts(st.bookings, u, c, now, u, c);
    CancelCounts(st.bookings, u, c, now, x, y);
  }

  /** When every check passes on a store with unique course keys, booking succeeds: the converse of the success clause of PostCourse. */
  lemma BookingSucceedsWhenChecksPass(st: Store, u: Id, c: Id, k: nat)
    requires Distinct(CourseIds(st.courses))
    requires k < |st.courses| && st.courses[k].id == c
    requires ActiveOfPair(st.bookings, u, c) == 0
    requires ActiveOfUser(st.bookings, u) < Credits(st.purchases, u)
    requires ActiveOfCourse(st.bookings, c) < st.courses[k].maxParticipants
    ensures PostCourse(st, u, c).response == Success(201, NullData)
  {
    forall k' | 0 <= k' < |st.courses| && st.courses[k'].id == c
      ensures ActiveOfCourse(st.bookings, c) < st.courses[k'].maxParticipants
    {
      assert CourseIds(st.courses)[k'] == CourseIds(st.courses)[k];
      assert k' == k;
    }
  }

  /** A successful cancellation names a course that exists. */
  lemma CancelledCourseExists(st: Store, u: Id, c: Id, now: Stamp) returns (k: nat)
    requires BookingsReferToCourses(st)
    requires DeleteCourse(st, u, c, now).response.Success?
    ensures k < |st.courses| && st.courses[k].id == c
  {
    assert ActiveOfPair(st.bookings, u, c) > 0;
    var i :| 0 <= i < |st.bookings| && PairActive(u, c)(st.bookings[i]);
    assert CourseExists(st, st.bookings[i].courseId);
    k :| 0 <= k < |st.courses| && st.courses[k].id == c;
  }

  /** After a successful cancellation the same user can book the same course again at once. */
  lemma CancelThenRebook(st: Store, u: Id, c: Id, now: Stamp)
    requires LedgerOk(st)
    requires DeleteCourse(st, u, c, now).response.Success?
    ensures PostCourse(DeleteCourse(st, u, c, now).store, u, c).response == Success(201, NullData)
  {
    var st' := DeleteCourse(st, u, c, now).store;
    CancelFreesOneCreditAndSeat(st, u, c, now, u, c);
    var k := CancelledCourseExists(st, u, c, now);
    assert st'.courses == st.courses && st'.purchases == st.purchases;
    assert ActiveOfCourse(st.bookings, c) <= st.courses[k].maxParticipants;
    assert ActiveOfUser(st.bookings, u) <= Credits(st.purchases, u);
    BookingSucceedsWhenChecksPass(st', u, c, k);
  }
}
