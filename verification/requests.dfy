/**
  The whole service as one state machine: a request is one call of one
  handler, and a step runs it against the store. A store is consistent when
  the ledger promises hold, the coach table agrees with the users' roles, and
  every column the handlers treat as unique (user email, package name, skill
  name, every key) is unique. Every request except a course update keeps a
  consistent store consistent; a course update does so exactly when the new
  size still covers the course's active bookings.
 */
module Requests {
  import opened JsValues
  import opened Entities
  import opened Envelope
  import opened Repository
  import opened Ledger
  import opened CourseController
  import opened BookingRules
  import opened AdminController
  import opened AdminRules
  import opened CreditPackageController
  import opened UserController
  import opened SkillController
  import opened CoachController

  datatype Request =
    | ListCourses
    | BookCourse(userId: Id, courseId: Id)
    | CancelBooking(userId: Id, courseId: Id, now: Stamp)
    | CreateCourse(callerId: Id, course: CourseBody)
    | UpdateCourse(callerId: Id, courseId: Id, course: CourseBody)
    | PromoteToCoach(userId: Id, coach: CoachBody)
    | ListPackages
    | CreatePackage(package: PackageBody)
    | BuyPackage(userId: Id, packageId: Id, now: Stamp)
    | RemovePackage(packageId: string)
    | SignUp(errors: seq<string>, name: string, email: string, passwordHash: string)
    | LogIn(email: string, password: JsValue, matches: (string, string) -> bool, token: string)
    | ReadProfile(callerId: Id)
    | RenameUser(callerId: Id, newName: JsValue, errors: seq<string>)
    | ListSkills
    | CreateSkill(errors: seq<string>, name: string)
    | RemoveSkill(skillId: string)
    | ListCoaches(per: Option<string>, page: Option<string>)
    | ReadCoach(coachId: string)

  predicate IsRead(req: Request) {
    req.ListCourses? || req.ListPackages? || req.LogIn? || req.ReadProfile? || req.ListSkills?
    || req.ListCoaches? || req.ReadCoach?
  }

  /** Every request goes to its handler. */
  function Step(st: Store, req: Request): Handled
  {
    match req
    case ListCourses => GetCourses(st)
    case BookCourse(u, c) => PostCourse(st, u, c)
    case CancelBooking(u, c, now) => DeleteCourse(st, u, c, now)
    case CreateCourse(caller, body) => PostAdminCourses(st, caller, body)
    case UpdateCourse(caller, c, body) => PutAdmin(st, caller, c, body)
    case PromoteToCoach(u, body) => PostAdminAsCoach(st, u, body)
    case ListPackages => GetCreditPackages(st)
    case CreatePackage(body) => PostCreditPackage(st, body)
    case BuyPackage(u, p, now) => PostCreditPackageId(st, u, p, now)
    case RemovePackage(p) => DeleteCreditPackage(st, p)
    case SignUp(errors, name, email, hash) => PostUser(st, errors, name, email, hash)
    case LogIn(email, password, matches, token) => PostUserLogin(st, email, password, matches, token)
    case ReadProfile(caller) => GetUser(st, caller)
    case RenameUser(caller, name, errors) => PutUser(st, caller, name, errors)
    case ListSkills => GetSkills(st)
    case CreateSkill(errors, name) => PostSkill(st, errors, name)
    case RemoveSkill(s) => DeleteSkill(st, s)
    case ListCoaches(per, page) => GetCoaches(st, per, page)
    case ReadCoach(c) => GetCoachId(st, c)
  }

  /** Reads leave the store as it was. */
  lemma ReadLeavesStore(st: Store, req: Request)
    requires IsRead(req)
    ensures Step(st, req).store == st
  {
  }

  /** The requests one after another, from `st`. */
  function Run(st: Store, reqs: seq<Request>): Store
    decreases |reqs|
  {
    if |reqs| == 0 then st else Run(Step(st, reqs[0]).store, reqs[1..])
  }

  function PackageKey(): CreditPackage -> string { (p: CreditPackage) => p.id }
  function PackageNameKey(): CreditPackage -> string { (p: CreditPackage) => p.name }
  function SkillKey(): Skill -> string { (s: Skill) => s.id }
  function SkillNameKey(): Skill -> string { (s: Skill) => s.name }

  ghost predicate CatalogueOk(st: Store) {
    && Distinct(PackageIds(st.packages)) && Distinct(PackageNames(st.packages))
    && (forall k :: 0 <= k < |st.packages| ==> st.packages[k].creditAmount >= 0)
    && Distinct(SkillIds(st.skills)) && Distinct(SkillNames(st.skills))
  }

  /** Booking and purchase keys are unique. */
  ghost predicate LedgerKeysOk(st: Store) {
    Distinct(BookingIds(st.bookings)) && Distinct(PurchaseIds(st.purchases))
  }

  ghost predicate Consistent(st: Store) {
    && LedgerOk(st)
    && LedgerKeysOk(st)
    && CoachesConsistent(st)
    && Distinct(UserEmails(st.users))
    && CatalogueOk(st)
  }

  lemma EmptyStoreConsistent()
    ensures Consistent(EmptyStore)
  {
  }

  // ---------------------------------------------------------------------------
  // Frames: a part of the invariant only reads some tables
  // ---------------------------------------------------------------------------

  lemma LedgerFrame(st: Store, st': Store)
    requires LedgerOk(st)
    requires st'.courses == st.courses && st'.bookings == st.bookings && st'.purchases == st.purchases
    ensures LedgerOk(st')
  {
    assert forall c :: CourseExists(st', c) == CourseExists(st, c);
  }

  /** The coach table stays consistent when the users keep, row by row, their keys and roles (more rows may follow). */
  lemma CoachesAfterUserChange(st: Store, st': Store)
    requires CoachesConsistent(st)
    requires st'.coaches == st.coaches && Distinct(UserIds(st'.users)) && |st.users| <= |st'.users|
    requires forall k :: 0 <= k < |st.users| ==> st'.users[k].id == st.users[k].id && st'.users[k].role == st.users[k].role
    ensures CoachesConsistent(st')
  {
    forall j | 0 <= j < |st'.coaches|
      ensures exists k :: 0 <= k < |st'.users| && st'.users[k].id == st'.coaches[j].userId && st'.users[k].role == COACH
    {
      var k :| 0 <= k < |st.users| && st.users[k].id == st.coaches[j].userId && st.users[k].role == COACH;
      assert st'.users[k].id == st.users[k].id && st'.users[k].role == COACH;
    }
    assert Distinct(CoachIds(st'.coaches));
    assert forall i, j :: 0 <= i < j < |st'.coaches| ==> st'.coaches[i].userId != st'.coaches[j].userId;
  }

  lemma CoachesFrame(st: Store, st': Store)
    requires CoachesConsistent(st)
    requires st'.users == st.users && st'.coaches == st.coaches
    ensures CoachesConsistent(st')
  {
    CoachesAfterUserChange(st, st');
  }

  lemma KeysFrame(st: Store, st': Store)
    requires LedgerKeysOk(st)
    requires st'.bookings == st.bookings && st'.purchases == st.purchases
    ensures LedgerKeysOk(st')
  {
  }

  /** Changing other columns of the users keeps the e-mail column, so its uniqueness too. */
  lemma EmailsFrame(us: seq<User>, us': seq<User>)
    requires Distinct(UserEmails(us))
    requires |us'| == |us| && forall k :: 0 <= k < |us| ==> us'[k].email == us[k].email
    ensures Distinct(UserEmails(us'))
  {
    assert UserEmails(us') == UserEmails(us);
  }

  lemma CatalogueFrame(st: Store, st': Store)
    requires CatalogueOk(st)
    requires st'.packages == st.packages && st'.skills == st.skills
    ensures CatalogueOk(st')
  {
  }

  // ---------------------------------------------------------------------------
  // One lemma per writing handler
  // ---------------------------------------------------------------------------

  lemma BookKeeps(st: Store, u: Id, c: Id)
    requires Consistent(st)
    ensures Consistent(PostCourse(st, u, c).store)
  {
    var st', b := BookingStore(st, u, c);
    BookingKeepsLedger(st, u, c);
    if st' != st {
      BookingAppendKeeps(st, st', b);
    }
  }

  /** Appending a booking under a new key, when the ledger promises survive it, keeps the invariant. */
  lemma BookingAppendKeeps(st: Store, st': Store, b: CourseBooking)
    requires Consistent(st) && LedgerOk(st')
    requires st' == st.(bookings := st.bookings + [b])
    requires forall i :: 0 <= i < |st.bookings| ==> st.bookings[i].id != b.id
    ensures Consistent(st')
  {
    assert BookingIds(st'.bookings) == BookingIds(st.bookings) + [b.id];
    DistinctAppend(BookingIds(st.bookings), b.id);
    CoachesFrame(st, st');
    CatalogueFrame(st, st');
  }

  /** A booking either leaves the store as it was or appends one booking under a new key. */
  lemma BookingStore(st: Store, u: Id, c: Id) returns (st': Store, b: CourseBooking)
    ensures st' == PostCourse(st, u, c).store
    ensures st' != st ==>
      && st' == st.(bookings := st.bookings + [b])
      && forall i :: 0 <= i < |st.bookings| ==> st.bookings[i].id != b.id
  {
    var r := PostCourse(st, u, c);
    st' := r.store;
    if r.response.Success? {
      b := st'.bookings[|st.bookings|];
      assert st'.bookings == st.bookings + [b];
    } else {
      b := CourseBooking("", u, c, None);
    }
  }

  /** Stamping a cancellation changes no key. */
  lemma CancelKeepsKeys(st: Store, u: Id, c: Id, now: Stamp)
    requires LedgerKeysOk(st)
    ensures LedgerKeysOk(DeleteCourse(st, u, c, now).store)
  {
    var r := DeleteCourse(st, u, c, now);
    if r.response.Success? {
      var after := r.store.bookings;
      forall i | 0 <= i < |after| ensures BookingIds(after)[i] == BookingIds(st.bookings)[i] {
        assert after[i].id == st.bookings[i].id;
      }
      assert BookingIds(after) == BookingIds(st.bookings);
    }
  }

  lemma CancelKeeps(st: Store, u: Id, c: Id, now: Stamp)
    requires Consistent(st)
    ensures Consistent(DeleteCourse(st, u, c, now).store)
  {
    var st' := DeleteCourse(st, u, c, now).store;
    CancelKeepsLedger(st, u, c, now);
    CancelKeepsKeys(st, u, c, now);
    CoachesFrame(st, st');
    CatalogueFrame(st, st');
  }

  /** A new course under a fresh key starts with no bookings, so it is within any non-negative size. */
  lemma CourseAppendKeepsLedger(st: Store, c: Course)
    requires LedgerOk(st) && c.maxParticipants >= 0
    requires forall k :: 0 <= k < |st.courses| ==> st.courses[k].id != c.id
    ensures LedgerOk(st.(courses := st.courses + [c]))
  {
    var st' := st.(courses := st.courses + [c]);
    var cs := st'.courses;
    forall i, j | 0 <= i < j < |cs| ensures CourseIds(cs)[i] != CourseIds(cs)[j] {
      if j < |st.courses| {
        assert CourseIds(st.courses)[i] != CourseIds(st.courses)[j];
      }
    }
    forall i | 0 <= i < |st.bookings| ensures CourseExists(st', st.bookings[i].courseId) && st.bookings[i].courseId != c.id {
      var k :| 0 <= k < |st.courses| && st.courses[k].id == st.bookings[i].courseId;
      assert cs[k] == st.courses[k];
    }
    assert ActiveOfCourse(st.bookings, c.id) == 0;
    forall j | 0 <= j < |cs| ensures ActiveOfCourse(st.bookings, cs[j].id) <= cs[j].maxParticipants {
      if j < |st.courses| {
        assert cs[j] == st.courses[j];
      }
    }
  }

  lemma CreateCourseKeeps(st: Store, caller: Id, body: CourseBody)
    requires Consistent(st)
    ensures Consistent(PostAdminCourses(st, caller, body).store)
  {
    var r := PostAdminCourses(st, caller, body);
    if r.response.Success? {
      CourseAppendKeepsLedger(st, r.response.data.course);
      CoachesFrame(st, r.store);
      CatalogueFrame(st, r.store);
    }
  }

  /** Resizing the courses with key `courseId` to `m` seats keeps the ledger promises exactly when `m` covers their active bookings. */
  lemma LedgerAfterResize(st: Store, cs': seq<Course>, courseId: Id, m: int)
    requires LedgerOk(st)
    requires exists k :: 0 <= k < |st.courses| && st.courses[k].id == courseId
    requires |cs'| == |st.courses|
    requires forall k :: 0 <= k < |st.courses| ==>
      if st.courses[k].id == courseId then cs'[k].id == courseId && cs'[k].maxParticipants == m else cs'[k] == st.courses[k]
    ensures LedgerOk(st.(courses := cs')) <==> ActiveOfCourse(st.bookings, courseId) <= m
  {
    var st' := st.(courses := cs');
    CapacityAfterResize(st.courses, cs', st.bookings, courseId, m);
    assert forall k :: 0 <= k < |cs'| ==> cs'[k].id == st.courses[k].id;
    assert CourseIds(cs') == CourseIds(st.courses);
    forall i | 0 <= i < |st.bookings| ensures CourseExists(st', st.bookings[i].courseId) {
      var k :| 0 <= k < |st.courses| && st.courses[k].id == st.bookings[i].courseId;
      assert cs'[k].id == st.courses[k].id;
    }
  }

  /** A successful course update keeps the store consistent exactly when the new size covers the course's active bookings. */
  lemma UpdateCourseKeepsIff(st: Store, caller: Id, courseId: Id, body: CourseBody)
    requires Consistent(st)
    requires PutAdmin(st, caller, courseId, body).response.Success?
    ensures Consistent(PutAdmin(st, caller, courseId, body).store) <==>
      ActiveOfCourse(st.bookings, courseId) <= body.maxParticipants.n.i
  {
    var st' := PutAdmin(st, caller, courseId, body).store;
    LedgerAfterResize(st, st'.courses, courseId, body.maxParticipants.n.i);
    assert st' == st.(courses := st'.courses);
    CoachesFrame(st, st');
    CatalogueFrame(st, st');
  }

  lemma PromoteKeeps(st: Store, u: Id, body: CoachBody)
    requires Consistent(st)
    ensures Consistent(PostAdminAsCoach(st, u, body).store)
  {
    var st' := PromotionStore(st, u, body);
    PromotionKeepsCoaches(st, u, body);
    if st' != st {
      UserTablesKeep(st, st');
    }
  }

  /** A promotion either leaves the store as it was or writes only the users' roles and the coach table. */
  lemma PromotionStore(st: Store, u: Id, body: CoachBody) returns (st': Store)
    ensures st' == PostAdminAsCoach(st, u, body).store
    ensures st' != st ==>
      && st' == st.(users := st'.users, coaches := st'.coaches)
      && |st'.users| == |st.users| && forall k :: 0 <= k < |st.users| ==> st'.users[k].email == st.users[k].email
  {
    st' := PostAdminAsCoach(st, u, body).store;
  }

  /** A write to the users and coaches alone keeps the invariant when the coaches stay consistent and every email stays put. */
  lemma UserTablesKeep(st: Store, st': Store)
    requires Consistent(st) && CoachesConsistent(st')
    requires st' == st.(users := st'.users, coaches := st'.coaches)
    requires |st'.users| == |st.users| && forall k :: 0 <= k < |st.users| ==> st'.users[k].email == st.users[k].email
    ensures Consistent(st')
  {
    KeysFrame(st, st');
    EmailsFrame(st.users, st'.users);
    LedgerFrame(st, st');
    CatalogueFrame(st, st');
  }

  lemma CreatePackageKeeps(st: Store, body: PackageBody)
    requires Consistent(st)
    ensures Consistent(PostCreditPackage(st, body).store)
  {
    var r := PostCreditPackage(st, body);
    PostPackageKeepsUnique(st, body);
    if r.response.Success? {
      LedgerFrame(st, r.store);
      CoachesFrame(st, r.store);
    }
  }

  /** Adding a purchase of a non-negative number of credits never takes credits away. */
  lemma PurchaseAppendKeepsLedger(st: Store, p: CreditPurchase)
    requires LedgerOk(st) && p.purchasedCredits >= 0
    ensures LedgerOk(st.(purchases := st.purchases + [p]))
  {
    forall x ensures ActiveOfUser(st.bookings, x) <= Credits(st.purchases + [p], x) {
      CreditsAppend(st.purchases, p, x);
    }
    LedgerFrame(st, st.(purchases := st.purchases));
  }

  lemma BuyKeeps(st: Store, u: Id, packageId: Id, now: Stamp)
    requires Consistent(st)
    ensures Consistent(PostCreditPackageId(st, u, packageId, now).store)
  {
    var r := PostCreditPackageId(st, u, packageId, now);
    if r.response.Success? {
      var p := r.store.purchases[|st.purchases|];
      assert r.store.purchases == st.purchases + [p];
      PurchaseAppendKeepsLedger(st, p);
      assert PurchaseIds(r.store.purchases) == PurchaseIds(st.purchases) + [p.id];
      DistinctAppend(PurchaseIds(st.purchases), p.id);
      CoachesFrame(st, r.store);
      CatalogueFrame(st, r.store);
    }
  }

  lemma PackageKeysDistinct(ps: seq<CreditPackage>)
    ensures Distinct(PackageIds(ps)) <==> DistinctKeys(ps, PackageKey())
    ensures Distinct(PackageNames(ps)) <==> DistinctKeys(ps, PackageNameKey())
  {
  }

  lemma SkillKeysDistinct(ss: seq<Skill>)
    ensures Distinct(SkillIds(ss)) <==> DistinctKeys(ss, SkillKey())
    ensures Distinct(SkillNames(ss)) <==> DistinctKeys(ss, SkillNameKey())
  {
  }

  lemma RemovePackageKeeps(st: Store, packageId: string)
    requires Consistent(st)
    ensures Consistent(DeleteCreditPackage(st, packageId).store)
  {
    var r := DeleteCreditPackage(st, packageId);
    if r.response.Success? {
      var kept := DeleteWhere(st.packages, PackageWithId(packageId)).0;
      assert r.store.packages == kept;
      PackageKeysDistinct(st.packages);
      PackageKeysDistinct(kept);
      DeleteKeepsDistinctKeys(st.packages, PackageWithId(packageId), PackageKey());
      DeleteKeepsDistinctKeys(st.packages, PackageWithId(packageId), PackageNameKey());
      LedgerFrame(st, r.store);
      CoachesFrame(st, r.store);
    }
  }

  lemma SignUpKeeps(st: Store, errors: seq<string>, name: string, email: string, hash: string)
    requires Consistent(st)
    ensures Consistent(PostUser(st, errors, name, email, hash).store)
  {
    var r := PostUser(st, errors, name, email, hash);
    SignupKeepsUnique(st, errors, name, email, hash);
    if r.response.Success? {
      var st' := r.store;
      CoachesAfterUserChange(st, st');
      LedgerFrame(st, st');
      CatalogueFrame(st, st');
    }
  }

  lemma RenameKeeps(st: Store, caller: Id, name: JsValue, errors: seq<string>)
    requires Consistent(st)
    ensures Consistent(PutUser(st, caller, name, errors).store)
  {
    var st' := RenameStore(st, caller, name, errors);
    AccountsKeptKeeps(st, st');
  }

  /** A rename writes the users alone, and keeps each row's key, email and role. */
  lemma RenameStore(st: Store, caller: Id, name: JsValue, errors: seq<string>) returns (st': Store)
    ensures st' == PutUser(st, caller, name, errors).store
    ensures st' == st.(users := st'.users) && |st'.users| == |st.users|
    ensures forall k :: 0 <= k < |st.users| ==>
      st'.users[k].id == st.users[k].id && st'.users[k].email == st.users[k].email && st'.users[k].role == st.users[k].role
  {
    st' := PutUser(st, caller, name, errors).store;
    RenameKeepsAccounts(st, caller, name, errors);
    assert forall k :: 0 <= k < |st.users| ==> st'.users[k] == st.users[k].(name := st'.users[k].name);
  }

  /** Rewriting user rows in place, with every key, email and role kept, keeps the invariant. */
  lemma AccountsKeptKeeps(st: Store, st': Store)
    requires Consistent(st)
    requires st' == st.(users := st'.users) && |st'.users| == |st.users|
    requires forall k :: 0 <= k < |st.users| ==>
      st'.users[k].id == st.users[k].id && st'.users[k].email == st.users[k].email && st'.users[k].role == st.users[k].role
    ensures Consistent(st')
  {
    assert UserIds(st'.users) == UserIds(st.users);
    CoachesAfterUserChange(st, st');
    UserTablesKeep(st, st');
  }

  lemma CreateSkillKeeps(st: Store, errors: seq<string>, name: string)
    requires Consistent(st)
    ensures Consistent(PostSkill(st, errors, name).store)
  {
    var r := PostSkill(st, errors, name);
    PostSkillKeepsUnique(st, errors, name);
    if r.response.Success? {
      LedgerFrame(st, r.store);
      CoachesFrame(st, r.store);
    }
  }

  lemma RemoveSkillKeeps(st: Store, skillId: string)
    requires Consistent(st)
    ensures Consistent(DeleteSkill(st, skillId).store)
  {
    var r := DeleteSkill(st, skillId);
    if r.response.Success? {
      var kept := DeleteWhere(st.skills, SkillWithId(skillId)).0;
      assert r.store.skills == kept;
      SkillKeysDistinct(st.skills);
      SkillKeysDistinct(kept);
      DeleteKeepsDistinctKeys(st.skills, SkillWithId(skillId), SkillKey());
      DeleteKeepsDistinctKeys(st.skills, SkillWithId(skillId), SkillNameKey());
      LedgerFrame(st, r.store);
      CoachesFrame(st, r.store);
    }
  }

  // ---------------------------------------------------------------------------
  // Every step, every run
  // ---------------------------------------------------------------------------

  /** A request the invariant survives: anything but a course update that would shrink a course below its bookings. */
  ghost predicate SafeRequest(st: Store, req: Request) {
    req.UpdateCourse? ==>
      !AcceptableCourseBody(req.course) || ActiveOfCourse(st.bookings, req.courseId) <= req.course.maxParticipants.n.i
  }

  lemma StepKeepsConsistent(st: Store, req: Request)
    requires Consistent(st) && SafeRequest(st, req)
    ensures Consistent(Step(st, req).store)
  {
    if IsRead(req) {
      ReadLeavesStore(st, req);
    } else if req.BookCourse? || req.CancelBooking? || req.CreateCourse? || req.UpdateCourse? {
      CourseStepKeeps(st, req);
    } else if req.PromoteToCoach? || req.SignUp? || req.RenameUser? {
      AccountStepKeeps(st, req);
    } else if req.CreatePackage? || req.BuyPackage? || req.RemovePackage? {
      PackageStepKeeps(st, req);
    } else {
      SkillStepKeeps(st, req);
    }
  }

  /** The course and booking requests keep the invariant. */
  lemma CourseStepKeeps(st: Store, req: Request)
    requires Consistent(st) && SafeRequest(st, req)
    requires req.BookCourse? || req.CancelBooking? || req.CreateCourse? || req.UpdateCourse?
    ensures Consistent(Step(st, req).store)
  {
    match req {
      case BookCourse(u, c) => BookKeeps(st, u, c);
      case CancelBooking(u, c, now) => CancelKeeps(st, u, c, now);
      case CreateCourse(caller, body) => CreateCourseKeeps(st, caller, body);
      case UpdateCourse(caller, c, body) =>
        if PutAdmin(st, caller, c, body).response.Success? {
          UpdateCourseKeepsIff(st, caller, c, body);
        }
    }
  }

  /** The account writes keep the invariant. */
  lemma AccountStepKeeps(st: Store, req: Request)
    requires Consistent(st)
    requires req.PromoteToCoach? || req.SignUp? || req.RenameUser?
    ensures Consistent(Step(st, req).store)
  {
    match req {
      case PromoteToCoach(u, body) => PromoteKeeps(st, u, body);
      case SignUp(errors, name, email, hash) => SignUpKeeps(st, errors, name, email, hash);
      case RenameUser(caller, name, errors) => RenameKeeps(st, caller, name, errors);
    }
  }

  /** The package writes keep the invariant. */
  lemma PackageStepKeeps(st: Store, req: Request)
    requires Consistent(st)
    requires req.CreatePackage? || req.BuyPackage? || req.RemovePackage?
    ensures Consistent(Step(st, req).store)
  {
    match req {
      case CreatePackage(body) => CreatePackageKeeps(st, body);
      case BuyPackage(u, p, now) => BuyKeeps(st, u, p, now);
      case RemovePackage(p) => RemovePackageKeeps(st, p);
    }
  }

  /** The skill writes keep the invariant. */
  lemma SkillStepKeeps(st: Store, req: Request)
    requires Consistent(st)
    requires req.CreateSkill? || req.RemoveSkill?
    ensures Consistent(Step(st, req).store)
  {
    match req {
      case CreateSkill(errors, name) => CreateSkillKeeps(st, errors, name);
      case RemoveSkill(s) => RemoveSkillKeeps(st, s);
    }
  }

  /** From a consistent store (the empty one, say), any run without course updates reaches only consistent stores. */
  lemma {:induction false} RunKeepsConsistent(st: Store, reqs: seq<Request>)
    requires Consistent(st)
    requires forall i :: 0 <= i < |reqs| ==> !reqs[i].UpdateCourse?
    ensures Consistent(Run(st, reqs))
    decreases |reqs|
  {
    if |reqs| > 0 {
      var next := Step(st, reqs[0]).store;
      StepKeepsConsistent(st, reqs[0]);
      assert forall i :: 0 <= i < |reqs[1..]| ==> !reqs[1..][i].UpdateCourse?;
      RunKeepsConsistent(next, reqs[1..]);
      assert Run(st, reqs) == Run(next, reqs[1..]);
    }
  }

  // ---------------------------------------------------------------------------
  // History: what no request takes back
  // ---------------------------------------------------------------------------

  /**
    `st'` still holds every booking row of `st`, in place and for the same user
    and course (only `cancelledAt` may change), and every course row of `st`, in
    place and under the same key. Rows may follow.
   */
  ghost predicate KeepsHistory(st: Store, st': Store) {
    && |st.bookings| <= |st'.bookings|
    && (forall i :: 0 <= i < |st.bookings| ==>
          st'.bookings[i].userId == st.bookings[i].userId && st'.bookings[i].courseId == st.bookings[i].courseId)
    && |st.courses| <= |st'.courses|
    && (forall k :: 0 <= k < |st.courses| ==> st'.courses[k].id == st.courses[k].id)
  }

  /** A store that appends bookings and leaves the courses alone keeps the history. */
  lemma BookingsAppendedKeepHistory(st: Store, st': Store)
    requires st'.courses == st.courses && |st.bookings| <= |st'.bookings|
    requires st'.bookings[..|st.bookings|] == st.bookings
    ensures KeepsHistory(st, st')
  {
    forall i | 0 <= i < |st.bookings| ensures st'.bookings[i] == st.bookings[i] {
      assert st'.bookings[..|st.bookings|][i] == st'.bookings[i];
    }
  }

  /** No request deletes a booking or a course, re-keys a course, or moves a booking to another user or course. */
  lemma StepKeepsHistory(st: Store, req: Request)
    ensures KeepsHistory(st, Step(st, req).store)
  {
    if req.BookCourse? || req.CancelBooking? || req.CreateCourse? || req.UpdateCourse? {
      CourseStepKeepsHistory(st, req);
    } else {
      var st' := OtherStepStore(st, req);
      assert st'.bookings == st.bookings && st'.courses == st.courses;
    }
  }

  /** The requests that write the courses or the bookings keep the history. */
  lemma CourseStepKeepsHistory(st: Store, req: Request)
    requires req.BookCourse? || req.CancelBooking? || req.CreateCourse? || req.UpdateCourse?
    ensures KeepsHistory(st, Step(st, req).store)
  {
    match req {
      case BookCourse(u, c) => BookKeepsHistory(st, u, c);
      case CancelBooking(u, c, now) => CancelKeepsHistory(st, u, c, now);
      case CreateCourse(caller, body) => CreateCourseKeepsHistory(st, caller, body);
      case UpdateCourse(caller, c, body) => UpdateCourseKeepsHistory(st, caller, c, body);
    }
  }

  lemma BookKeepsHistory(st: Store, u: Id, c: Id)
    ensures KeepsHistory(st, PostCourse(st, u, c).store)
  {
    var st', b := BookingStore(st, u, c);
    if st' != st {
      BookingsAppendedKeepHistory(st, st');
    }
  }

  lemma CancelKeepsHistory(st: Store, u: Id, c: Id, now: Stamp)
    ensures KeepsHistory(st, DeleteCourse(st, u, c, now).store)
  {
  }

  lemma CreateCourseKeepsHistory(st: Store, caller: Id, body: CourseBody)
    ensures KeepsHistory(st, PostAdminCourses(st, caller, body).store)
  {
    var r := PostAdminCourses(st, caller, body);
    if r.response.Success? {
      CourseAppendedKeepsHistory(st, r.store, r.response.data.course);
    }
  }

  lemma CourseAppendedKeepsHistory(st: Store, st': Store, c: Course)
    requires st' == st.(courses := st.courses + [c])
    ensures KeepsHistory(st, st')
  {
    assert forall k :: 0 <= k < |st.courses| ==> st'.courses[k] == st.courses[k];
  }

  lemma UpdateCourseKeepsHistory(st: Store, caller: Id, c: Id, body: CourseBody)
    ensures KeepsHistory(st, PutAdmin(st, caller, c, body).store)
  {
    var r := PutAdmin(st, caller, c, body);
    if r.response.Success? {
      RewriteKeepsHistory(st, c, body, r.store);
    }
  }

  lemma RewriteKeepsHistory(st: Store, courseId: Id, body: CourseBody, st': Store)
    requires AcceptableCourseBody(body) && RewritesCourse(st, courseId, body, st')
    ensures KeepsHistory(st, st')
  {
    forall k | 0 <= k < |st.courses| ensures st'.courses[k].id == st.courses[k].id {
      if st.courses[k].id != courseId {
        assert st'.courses[k] == st.courses[k];
      }
    }
  }

  /** Every other request leaves the courses and the bookings as they were. */
  lemma OtherStepStore(st: Store, req: Request) returns (st': Store)
    requires !(req.BookCourse? || req.CancelBooking? || req.CreateCourse? || req.UpdateCourse?)
    ensures st' == Step(st, req).store
    ensures st'.bookings == st.bookings && st'.courses == st.courses
  {
    st' := Step(st, req).store;
    match req {
      case PromoteToCoach(u, body) =>
        var p := PromotionStore(st, u, body);
      case RenameUser(caller, name, errors) =>
        var p := RenameStore(st, caller, name, errors);
      case _ =>
    }
  }

  lemma {:induction false} RunKeepsHistory(st: Store, reqs: seq<Request>)
    ensures KeepsHistory(st, Run(st, reqs))
    decreases |reqs|
  {
    if |reqs| > 0 {
      var next := Step(st, reqs[0]).store;
      StepKeepsHistory(st, reqs[0]);
      RunKeepsHistory(next, reqs[1..]);
      assert Run(st, reqs) == Run(next, reqs[1..]);
    }
  }
}
