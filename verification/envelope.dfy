/**
  What a handler sends back. A success carries `{status: "success", data}`
  with a 2xx code; an expected failure carries `{status: "failed", message}`
  with the code chosen where it is detected; `Fault` stands for an exception
  the handler did not anticipate, which the shared error handler turns into
  a 500 reply.
 */
module Envelope {
  import opened JsValues
  import opened Entities

  /** One row of the public course list, with the coach's and the skill's names joined in. */
  datatype CourseView = CourseView(
    id: Id,
    name: string,
    description: string,
    startAt: string,
    endAt: string,
    maxParticipants: int,
    coachName: string,
    skillName: string)

  /** One row of the public coach list: the coach's user id and name. */
  datatype CoachEntry = CoachEntry(id: Id, name: string)

  /** The columns the profile read selects. */
  datatype Contact = Contact(name: string, email: string)

  datatype Data =
    | NullData
    | CourseList(courses: seq<CourseView>)
    | CourseRow(course: Course)
    | Promoted(userName: string, role: Role, coach: Coach)
    | PackageRow(package: CreditPackage)
    | PackageList(packages: seq<CreditPackage>)
    | Removed(affected: nat)
    | SignedUp(userId: Id, userName: string)
    | LoggedIn(token: string, userName: string)
    | Profile(userName: string)
    | Account(contact: Option<Contact>)
    | SkillRow(skill: Skill)
    | SkillList(skills: seq<Skill>)
    | CoachList(entries: seq<CoachEntry>)
    | CoachDetail(userName: string, role: Role, coach: Coach)

  datatype Response =
    | Success(code: int, data: Data)
    | Failed(code: int, msg: string)
    | Fault

  /** The reply to one request together with the store after it. */
  datatype Handled = Handled(response: Response, store: Store)

  const MsgIdError: string := "ID錯誤"
  const MsgAlreadyBooked: string := "已報名過此課程"
  const MsgNoCredit: string := "已無可使用堂數"
  const MsgCourseFull: string := "已達最大參加人數，無法參加"
  const MsgCourseNotFound: string := "課程不存在"
  const MsgCancelFailed: string := "取消失敗"
  /** The field-validation message of the admin and coach-list handlers. */
  const MsgFieldsIncorrect: string := "欄位未正確填寫"
  /** The field-validation message of the package, user and coach-detail handlers (word order differs). */
  const MsgFieldsNotFilled: string := "欄位未填寫正確"
  const MsgUpdateCourseFailed: string := "更新課程失敗"
  const MsgAvatarUrl: string := "大頭貼網址錯誤"
  const MsgUserNotFound: string := "使用者不存在"
  const MsgAlreadyCoach: string := "使用者已是教練"
  const MsgUpdateUserFailed: string := "更新使用者失敗"
  const MsgDuplicate: string := "資料重複"
  const MsgEmailTaken: string := "Email 已被使用"
  const MsgLoginFailed: string := "使用者不存在或密碼輸入錯誤"
  const MsgNameUnchanged: string := "使用者名稱未變更"
  const MsgUpdateProfileFailed: string := "更新使用者資料失敗"

  /** `array.join(sep)` */
  function Join(parts: seq<string>, sep: string): string {
    if |parts| == 0 then ""
    else if |parts| == 1 then parts[0]
    else parts[0] + sep + Join(parts[1..], sep)
  }

  /** The 400 reply listing validator messages, as signup, rename and skill creation send it. */
  function ValidationFailure(messages: seq<string>): Response {
    Failed(400, Join(messages, ", "))
  }

  /** The booking messages are pairwise different, so a reply names its failure unambiguously. */
  lemma BookingMessagesDiffer()
    ensures MsgIdError != MsgAlreadyBooked
    ensures MsgIdError != MsgNoCredit
    ensures MsgIdError != MsgCourseFull
    ensures MsgIdError != MsgCourseNotFound
    ensures MsgIdError != MsgCancelFailed
    ensures MsgAlreadyBooked != MsgNoCredit
    ensures MsgAlreadyBooked != MsgCourseFull
    ensures MsgAlreadyBooked != MsgCourseNotFound
    ensures MsgAlreadyBooked != MsgCancelFailed
    ensures MsgNoCredit != MsgCourseFull
    ensures MsgNoCredit != MsgCourseNotFound
    ensures MsgNoCredit != MsgCancelFailed
    ensures MsgCourseFull != MsgCourseNotFound
    ensures MsgCourseFull != MsgCancelFailed
    ensures MsgCourseNotFound != MsgCancelFailed
  {
    assert |MsgIdError| != |MsgAlreadyBooked|;
    assert |MsgIdError| != |MsgNoCredit|;
    assert |MsgIdError| != |MsgCourseFull|;
    assert |MsgIdError| != |MsgCourseNotFound|;
    assert MsgIdError[0] != MsgCancelFailed[0];
    assert MsgAlreadyBooked[1] != MsgNoCredit[1];
    assert |MsgAlreadyBooked| != |MsgCourseFull|;
    assert |MsgAlreadyBooked| != |MsgCourseNotFound|;
    assert |MsgAlreadyBooked| != |MsgCancelFailed|;
    assert |MsgNoCredit| != |MsgCourseFull|;
    assert |MsgNoCredit| != |MsgCourseNotFound|;
    assert |MsgNoCredit| != |MsgCancelFailed|;
    assert |MsgCourseFull| != |MsgCourseNotFound|;
    assert |MsgCourseFull| != |MsgCancelFailed|;
    assert |MsgCourseNotFound| != |MsgCancelFailed|;
  }

  /** The admin messages are pairwise different, so a reply names its failure unambiguously. */
  lemma AdminMessagesDiffer()
    ensures MsgFieldsIncorrect != MsgCourseNotFound
    ensures MsgFieldsIncorrect != MsgUpdateCourseFailed
    ensures MsgFieldsIncorrect != MsgAvatarUrl
    ensures MsgFieldsIncorrect != MsgUserNotFound
    ensures MsgFieldsIncorrect != MsgAlreadyCoach
    ensures MsgFieldsIncorrect != MsgUpdateUserFailed
    ensures MsgCourseNotFound != MsgUpdateCourseFailed
    ensures MsgCourseNotFound != MsgAvatarUrl
    ensures MsgCourseNotFound != MsgUserNotFound
    ensures MsgCourseNotFound != MsgAlreadyCoach
    ensures MsgCourseNotFound != MsgUpdateUserFailed
    ensures MsgUpdateCourseFailed != MsgAvatarUrl
    ensures MsgUpdateCourseFailed != MsgUserNotFound
    ensures MsgUpdateCourseFailed != MsgAlreadyCoach
    ensures MsgUpdateCourseFailed != MsgUpdateUserFailed
    ensures MsgAvatarUrl != MsgUserNotFound
    ensures MsgAvatarUrl != MsgAlreadyCoach
    ensures MsgAvatarUrl != MsgUpdateUserFailed
    ensures MsgUserNotFound != MsgAlreadyCoach
    ensures MsgUserNotFound != MsgUpdateUserFailed
    ensures MsgAlreadyCoach != MsgUpdateUserFailed
  {
    assert |MsgFieldsIncorrect| != |MsgCourseNotFound|;
    assert |MsgFieldsIncorrect| != |MsgUpdateCourseFailed|;
    assert MsgFieldsIncorrect[0] != MsgAvatarUrl[0];
    assert |MsgFieldsIncorrect| != |MsgUserNotFound|;
    assert MsgFieldsIncorrect[0] != MsgAlreadyCoach[0];
    assert MsgFieldsIncorrect[0] != MsgUpdateUserFailed[0];
    assert |MsgCourseNotFound| != |MsgUpdateCourseFailed|;
    assert |MsgCourseNotFound| != |MsgAvatarUrl|;
    assert |MsgCourseNotFound| != |MsgUserNotFound|;
    assert |MsgCourseNotFound| != |MsgAlreadyCoach|;
    assert |MsgCourseNotFound| != |MsgUpdateUserFailed|;
    assert |MsgUpdateCourseFailed| != |MsgAvatarUrl|;
    assert MsgUpdateCourseFailed[0] != MsgUserNotFound[0];
    assert |MsgUpdateCourseFailed| != |MsgAlreadyCoach|;
    assert |MsgUpdateCourseFailed| != |MsgUpdateUserFailed|;
    assert |MsgAvatarUrl| != |MsgUserNotFound|;
    assert MsgAvatarUrl[0] != MsgAlreadyCoach[0];
    assert MsgAvatarUrl[0] != MsgUpdateUserFailed[0];
    assert |MsgUserNotFound| != |MsgAlreadyCoach|;
    assert |MsgUserNotFound| != |MsgUpdateUserFailed|;
    assert MsgAlreadyCoach[0] != MsgUpdateUserFailed[0];
  }

  /** The catalogue messages are pairwise different, so a reply names its failure unambiguously. */
  lemma CatalogueMessagesDiffer()
    ensures MsgFieldsNotFilled != MsgFieldsIncorrect
    ensures MsgFieldsNotFilled != MsgDuplicate
    ensures MsgFieldsNotFilled != MsgIdError
    ensures MsgFieldsNotFilled != MsgEmailTaken
    ensures MsgFieldsNotFilled != MsgLoginFailed
    ensures MsgFieldsNotFilled != MsgNameUnchanged
    ensures MsgFieldsNotFilled != MsgUpdateProfileFailed
    ensures MsgFieldsIncorrect != MsgDuplicate
    ensures MsgFieldsIncorrect != MsgIdError
    ensures MsgFieldsIncorrect != MsgEmailTaken
    ensures MsgFieldsIncorrect != MsgLoginFailed
    ensures MsgFieldsIncorrect != MsgNameUnchanged
    ensures MsgFieldsIncorrect != MsgUpdateProfileFailed
    ensures MsgDuplicate != MsgIdError
    ensures MsgDuplicate != MsgEmailTaken
    ensures MsgDuplicate != MsgLoginFailed
    ensures MsgDuplicate != MsgNameUnchanged
    ensures MsgDuplicate != MsgUpdateProfileFailed
    ensures MsgIdError != MsgEmailTaken
    ensures MsgIdError != MsgLoginFailed
    ensures MsgIdError != MsgNameUnchanged
    ensures MsgIdError != MsgUpdateProfileFailed
    ensures MsgEmailTaken != MsgLoginFailed
    ensures MsgEmailTaken != MsgNameUnchanged
    ensures MsgEmailTaken != MsgUpdateProfileFailed
    ensures MsgLoginFailed != MsgNameUnchanged
    ensures MsgLoginFailed != MsgUpdateProfileFailed
    ensures MsgNameUnchanged != MsgUpdateProfileFailed
  {
    assert MsgFieldsNotFilled[3] != MsgFieldsIncorrect[3];
    assert |MsgFieldsNotFilled| != |MsgDuplicate|;
    assert |MsgFieldsNotFilled| != |MsgIdError|;
    assert |MsgFieldsNotFilled| != |MsgEmailTaken|;
    assert |MsgFieldsNotFilled| != |MsgLoginFailed|;
    assert |MsgFieldsNotFilled| != |MsgNameUnchanged|;
    assert |MsgFieldsNotFilled| != |MsgUpdateProfileFailed|;
    assert |MsgFieldsIncorrect| != |MsgDuplicate|;
    assert |MsgFieldsIncorrect| != |MsgIdError|;
    assert |MsgFieldsIncorrect| != |MsgEmailTaken|;
    assert |MsgFieldsIncorrect| != |MsgLoginFailed|;
    assert |MsgFieldsIncorrect| != |MsgNameUnchanged|;
    assert |MsgFieldsIncorrect| != |MsgUpdateProfileFailed|;
    assert MsgDuplicate[0] != MsgIdError[0];
    assert |MsgDuplicate| != |MsgEmailTaken|;
    assert |MsgDuplicate| != |MsgLoginFailed|;
    assert |MsgDuplicate| != |MsgNameUnchanged|;
    assert |MsgDuplicate| != |MsgUpdateProfileFailed|;
    assert |MsgIdError| != |MsgEmailTaken|;
    assert |MsgIdError| != |MsgLoginFailed|;
    assert |MsgIdError| != |MsgNameUnchanged|;
    assert |MsgIdError| != |MsgUpdateProfileFailed|;
    assert |MsgEmailTaken| != |MsgLoginFailed|;
    assert |MsgEmailTaken| != |MsgNameUnchanged|;
    assert |MsgEmailTaken| != |MsgUpdateProfileFailed|;
    assert |MsgLoginFailed| != |MsgNameUnchanged|;
    assert |MsgLoginFailed| != |MsgUpdateProfileFailed|;
    assert |MsgNameUnchanged| != |MsgUpdateProfileFailed|;
  }
}
