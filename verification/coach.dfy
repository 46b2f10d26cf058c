/**
  The public coach list and coach detail (the coach controller).

  The list reads `per` and `page` from the query string with `parseInt`, so a
  value is refused only when it parses to NaN or an infinity; the page is the
  slice of the coach table that starts at `per * (page - 1)` and holds at most
  `per` rows. Each entry names the coach's USER row (its id and name), not the
  coach row.
 */
module CoachController {
  import opened JsValues
  import opened Entities
  import opened Envelope
  import opened Repository
  import opened ValidUtils
  import opened CourseController

  function CoachWithId(id: Id): Coach -> bool {
    (c: Coach) => c.id == id
  }

  /** `String(value)` of a query parameter: an absent one reads as "undefined". */
  function QueryText(q: Option<string>): string {
    if q.Some? then q.value else UndefinedText
  }

  /** `isNaN(n) || n % 1 !== 0` on the result of `parseInt`. */
  function RejectsPageNumber(n: JsNumber): (rejected: bool)
    ensures rejected <==> !n.Integral?
  {
    IsNaN(n) || NotZero(ModOne(n))
  }

  function IsNaN(n: JsNumber): bool {
    n.NaN?
  }

  /** The entry of each coach, or None as soon as a coach's user row is missing (reading `.id` of null throws). */
  function CoachEntries(coaches: seq<Coach>, users: seq<User>): (r: Option<seq<CoachEntry>>)
    ensures r.None? <==> exists k :: 0 <= k < |coaches| && forall i :: 0 <= i < |users| ==> users[i].id != coaches[k].userId
    ensures r.Some? ==> |r.value| == |coaches| && forall k :: 0 <= k < |coaches| ==>
      && r.value[k].id == coaches[k].userId
      && exists i :: 0 <= i < |users| && users[i].id == coaches[k].userId && users[i].name == r.value[k].name
  {
    if |coaches| == 0 then Some([])
    else
      var user := FindFirst(users, UserWithId(coaches[0].userId));
      var rest := CoachEntries(coaches[1..], users);
      assert forall k :: 1 <= k < |coaches| ==> coaches[k] == coaches[1..][k - 1];
      if user.None? || rest.None? then None
      else
        var r := [CoachEntry(user.value.id, user.value.name)] + rest.value;
        assert forall k :: 1 <= k < |coaches| ==> r[k] == rest.value[k - 1];
        Some(r)
  }

  /** `take` rows from `skip` onwards, fewer at the end of the table. */
  function Window<T>(rows: seq<T>, skip: nat, take: nat): (r: seq<T>)
    ensures |r| <= take
    ensures skip <= |rows| ==> |r| == if |rows| - skip < take then |rows| - skip else take
    ensures skip > |rows| ==> |r| == 0
    ensures forall j :: 0 <= j < |r| ==> skip + j < |rows| && r[j] == rows[skip + j]
  {
    if skip >= |rows| then []
    else if |rows| - skip < take then rows[skip..]
    else rows[skip..skip + take]
  }

  /** `find({take: per, skip: per * (page - 1)})` for a positive `per` and `page`. */
  function PageOf<T>(rows: seq<T>, per: nat, page: nat): (r: seq<T>)
    requires per >= 1 && page >= 1
    ensures |r| <= per
    ensures per * (page - 1) <= |rows| ==> |r| == if |rows| - per * (page - 1) < per then |rows| - per * (page - 1) else per
    ensures per * (page - 1) > |rows| ==> |r| == 0
    ensures forall j :: 0 <= j < |r| ==> per * (page - 1) + j < |rows| && r[j] == rows[per * (page - 1) + j]
  {
    MulNonNegative(per, page - 1);
    Window(rows, per * (page - 1), per)
  }

  lemma MulNonNegative(a: nat, b: nat)
    ensures a * b >= 0
  {
  }

  /**
    With positive `per` and `page`, a page of the coach table, each coach
    shown by its user's id and name. Other integral values of `per` or `page`
    leave the outcome to the ORM's `take`/`skip` handling, which is not
    modelled: the reply is `Fault`.
   */
  function GetCoaches(st: Store, per: Option<string>, page: Option<string>): (r: Handled)
    ensures r.store == st
    ensures r.response.Failed? <==> !ParseInt(QueryText(per)).Integral? || !ParseInt(QueryText(page)).Integral?
    ensures r.response.Failed? ==> r.response == Failed(400, MsgFieldsIncorrect)
    ensures r.response.Success? ==>
      IsCoachPage(st, ParseInt(QueryText(per)).i, ParseInt(QueryText(page)).i, r.response)
    ensures var n, m := ParseInt(QueryText(per)), ParseInt(QueryText(page));
      n.Integral? && m.Integral? && n.i >= 1 && m.i >= 1 ==>
        (r.response.Fault? <==> PageLacksUser(st, n.i, m.i))
  {
    var perPage := ParseInt(QueryText(per));
    var pageNum := ParseInt(QueryText(page));
    if RejectsPageNumber(perPage) || RejectsPageNumber(pageNum) then
      Handled(Failed(400, MsgFieldsIncorrect), st)
    else if perPage.i < 1 || pageNum.i < 1 then
      Handled(Fault, st)
    else
      Handled(CoachPage(st, perPage.i, pageNum.i), st)
  }

  /** A 200 listing one entry per coach row of the page, entry `j` naming the user of coach row `per * (page - 1) + j`. */
  ghost predicate IsCoachPage(st: Store, per: int, page: int, response: Response) {
    && per >= 1 && page >= 1
    && response.Success? && response.code == 200 && response.data.CoachList?
    && var entries := response.data.entries;
       && |entries| == |PageOf(st.coaches, per, page)|
       && forall j :: 0 <= j < |entries| ==>
            && 0 <= per * (page - 1) + j < |st.coaches|
            && entries[j].id == st.coaches[per * (page - 1) + j].userId
            && exists i :: 0 <= i < |st.users| && st.users[i].id == entries[j].id && st.users[i].name == entries[j].name
  }

  /** Some coach row on the page has no user row: mapping it reads a field of null. */
  ghost predicate PageLacksUser(st: Store, per: int, page: int)
    requires per >= 1 && page >= 1
  {
    exists j :: 0 <= j < |PageOf(st.coaches, per, page)| &&
      forall i :: 0 <= i < |st.users| ==> st.users[i].id != PageOf(st.coaches, per, page)[j].userId
  }

  function CoachPage(st: Store, per: nat, page: nat): (r: Response)
    requires per >= 1 && page >= 1
    ensures r.Success? || r.Fault?
    ensures r.Success? ==> IsCoachPage(st, per, page, r)
    ensures r.Fault? <==> PageLacksUser(st, per, page)
  {
    var rows := PageOf(st.coaches, per, page);
    var entries := CoachEntries(rows, st.users);
    if entries.None? then Fault
    else Success(200, CoachList(entries.value))
  }

  /** Each coach row is on exactly one page: row `i` is entry `i % per` of page `i / per + 1`. */
  lemma {:induction false} RowOnItsPage<T>(rows: seq<T>, per: nat, i: nat)
    requires per >= 1 && i < |rows|
    ensures var page := PageOf(rows, per, i / per + 1);
      i % per < |page| && page[i % per] == rows[i]
  {
    assert per * (i / per + 1 - 1) == per * (i / per);
    assert per * (i / per) + i % per == i;
  }

  /**
    The `% 1` test is not dead code: a run of decimal digits too large for a
    double parses to an infinity, whose `% 1` is NaN, and is refused.
   */
  lemma {:induction false} OverflowingNumberRefused(ds: string)
    requires |ds| > 0 && forall i :: 0 <= i < |ds| ==> '0' <= ds[i] <= '9'
    requires !(|ds| >= 2 && ds[0] == '0' && (ds[1] == 'x' || ds[1] == 'X'))
    requires DigitsValue(ds, 10) >= DoubleOverflow
    ensures ParseInt(ds) == Infinity(false)
    ensures RejectsPageNumber(ParseInt(ds)) && !IsNaN(ParseInt(ds))
  {
    assert !IsJsWhitespace(ds[0]);
    assert TrimStart(ds) == ds;
    DigitPrefixAll(ds, 10);
    assert ds[..|ds|] == ds;
  }

  /** Absent or non-numeric `per`/`page` are refused, never paged. */
  lemma MissingPageRefused(st: Store, per: Option<string>)
    ensures GetCoaches(st, per, None).response == Failed(400, MsgFieldsIncorrect)
    ensures GetCoaches(st, None, per).response == Failed(400, MsgFieldsIncorrect)
  {
    ParseMissingIsNaN();
  }

  // ---------------------------------------------------------------------------
  // getCoachId
  // ---------------------------------------------------------------------------

  function GetCoachId(st: Store, coachId: string): (r: Handled)
    ensures r.store == st
    ensures r.response.Failed? ==> r.response.code == 400
    ensures r.response == Failed(400, MsgFieldsNotFilled) <==> !NonBlankString(Str(coachId))
    ensures r.response == Failed(400, MsgIdError) <==>
      NonBlankString(Str(coachId)) && forall k :: 0 <= k < |st.coaches| ==> st.coaches[k].id != coachId
    ensures r.response.Failed? ==> r.response.msg in {MsgFieldsNotFilled, MsgIdError}
    ensures r.response.Fault? <==>
      && NonBlankString(Str(coachId))
      && exists k :: IsFirst(st.coaches, CoachWithId(coachId), k)
           && forall i :: 0 <= i < |st.users| ==> st.users[i].id != st.coaches[k].userId
    ensures r.response.Success? ==>
      && r.response.code == 200 && r.response.data.CoachDetail?
      && var coach := r.response.data.coach;
         && (exists k :: IsFirst(st.coaches, CoachWithId(coachId), k) && st.coaches[k] == coach)
         && exists i :: IsFirst(st.users, UserWithId(coach.userId), i)
              && st.users[i].name == r.response.data.userName && st.users[i].role == r.response.data.role
  {
    CatalogueMessagesDiffer();
    if IsInvalidString(Str(coachId)) then
      Handled(Failed(400, MsgFieldsNotFilled), st)
    else
      var findCoach := FindFirst(st.coaches, CoachWithId(coachId));
      FindsFirst(st.coaches, CoachWithId(coachId));
      if findCoach.None? then
        Handled(Failed(400, MsgIdError), st)
      else
        var findUser := FindFirst(st.users, UserWithId(findCoach.value.userId));
        if findUser.None? then Handled(Fault, st)
        else Handled(Success(200, CoachDetail(findUser.value.name, findUser.value.role, findCoach.value)), st)
  }
}
