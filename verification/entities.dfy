/**
  The seven record kinds the handlers read and write, and the store that holds
  one table (a sequence of rows) of each kind.

  Primary keys are uuid strings in the database. Here a new row's key comes
  from `FreshId`, which picks a string unlike every key already in the table;
  which string the database would pick is not modelled.
 */
module Entities {
  import opened JsValues

  type Id = string

  /** A wall-clock timestamp (`new Date().toISOString()`), never null. */
  type Stamp = string

  datatype Role = USER | COACH

  datatype User = User(id: Id, name: string, email: string, password: string, role: Role)

  /** `profileImageUrl` keeps whatever JS value the request carried (null when absent). */
  datatype Coach = Coach(
    id: Id,
    userId: Id,
    experienceYears: int,
    description: string,
    profileImageUrl: JsValue)

  datatype Skill = Skill(id: Id, name: string)

  datatype Course = Course(
    id: Id,
    userId: Id,
    skillId: string,
    name: string,
    description: string,
    startAt: string,
    endAt: string,
    maxParticipants: int,
    meetingUrl: string)

  datatype CreditPackage = CreditPackage(id: Id, name: string, creditAmount: int, price: int)

  datatype CreditPurchase = CreditPurchase(
    id: Id,
    userId: Id,
    packageId: Id,
    purchasedCredits: int,
    pricePaid: int,
    purchaseAt: Stamp)

  /** A booking is active while `cancelledAt` is null; cancelling only stamps it. */
  datatype CourseBooking = CourseBooking(id: Id, userId: Id, courseId: Id, cancelledAt: Option<Stamp>) {
    predicate Active() {
      cancelledAt.None?
    }
  }

  datatype Store = Store(
    users: seq<User>,
    coaches: seq<Coach>,
    courses: seq<Course>,
    skills: seq<Skill>,
    packages: seq<CreditPackage>,
    purchases: seq<CreditPurchase>,
    bookings: seq<CourseBooking>)

  const EmptyStore: Store := Store([], [], [], [], [], [], [])

  // ---------------------------------------------------------------------------
  // Fresh primary keys
  // ---------------------------------------------------------------------------

  function MaxLength(ids: seq<Id>): (m: nat)
    ensures forall i :: 0 <= i < |ids| ==> |ids[i]| <= m
  {
    if |ids| == 0 then 0
    else
      var rest := MaxLength(ids[1..]);
      assert forall i :: 1 <= i < |ids| ==> ids[i] == ids[1..][i - 1];
      if |ids[0]| > rest then |ids[0]| else rest
  }

  function Repeat(c: char, n: nat): (s: string)
    ensures |s| == n && forall i :: 0 <= i < n ==> s[i] == c
  {
    if n == 0 then "" else [c] + Repeat(c, n - 1)
  }

  /** A key that no row of the table holds yet; like a uuid it is never blank. */
  function FreshId(ids: seq<Id>): (r: Id)
    ensures forall i :: 0 <= i < |ids| ==> ids[i] != r
    ensures |r| > 0 && !IsJsWhitespace(r[0])
  {
    Repeat('k', MaxLength(ids) + 1)
  }

  /** One column of a table, row by row: `key` picks the column. */
  function Keys<T>(rows: seq<T>, key: T -> string): (ks: seq<string>)
    ensures |ks| == |rows| && forall i :: 0 <= i < |rows| ==> ks[i] == key(rows[i])
  {
    seq(|rows|, i requires 0 <= i < |rows| => key(rows[i]))
  }

  function UserIds(rows: seq<User>): seq<Id> { Keys(rows, (u: User) => u.id) }
  function CoachIds(rows: seq<Coach>): seq<Id> { Keys(rows, (c: Coach) => c.id) }
  function CourseIds(rows: seq<Course>): seq<Id> { Keys(rows, (c: Course) => c.id) }
  function SkillIds(rows: seq<Skill>): seq<Id> { Keys(rows, (s: Skill) => s.id) }
  function PackageIds(rows: seq<CreditPackage>): seq<Id> { Keys(rows, (p: CreditPackage) => p.id) }
  function PurchaseIds(rows: seq<CreditPurchase>): seq<Id> { Keys(rows, (p: CreditPurchase) => p.id) }
  function BookingIds(rows: seq<CourseBooking>): seq<Id> { Keys(rows, (b: CourseBooking) => b.id) }

  /** No key occurs twice: what a primary-key or unique column guarantees. */
  predicate Distinct(ids: seq<string>) {
    forall i, j :: 0 <= i < j < |ids| ==> ids[i] != ids[j]
  }

  /** A new key unlike every old one keeps a column unique. */
  lemma DistinctAppend(ids: seq<string>, x: string)
    requires Distinct(ids) && forall i :: 0 <= i < |ids| ==> ids[i] != x
    ensures Distinct(ids + [x])
  {
  }
}
