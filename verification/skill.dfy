/**
  The skill catalogue (the skill controller). The express-validator chain in
  front of the create is not part of this model; its messages arrive as a list.
 */
module SkillController {
  import opened JsValues
  import opened Entities
  import opened Envelope
  import opened Repository
  import opened ValidUtils
  import opened CourseController

  function SkillNamed(name: string): Skill -> bool {
    (s: Skill) => s.name == name
  }

  function SkillNames(rows: seq<Skill>): seq<string> { Keys(rows, (r: Skill) => r.name) }

  /** Every skill, in table order; read-only. */
  function GetSkills(st: Store): (r: Handled)
    ensures r.store == st && r.response.Success? && r.response.code == 200
    ensures r.response.data.SkillList? && multiset(r.response.data.skills) == multiset(st.skills)
  {
    Handled(Success(200, SkillList(st.skills)), st)
  }

  function PostSkill(st: Store, errors: seq<string>, name: string): (r: Handled)
    ensures !r.response.Fault?
    ensures r.response.Failed? ==> r.store == st
    ensures |errors| > 0 <==> r.response.Failed? && r.response.code == 400
    ensures |errors| > 0 ==> r.response == ValidationFailure(errors)
    ensures r.response.Failed? ==> r.response == ValidationFailure(errors) || r.response == Failed(409, MsgDuplicate)
    ensures r.response == Failed(409, MsgDuplicate) <==>
      |errors| == 0 && exists k :: 0 <= k < |st.skills| && st.skills[k].name == name
    ensures r.response.Success? ==>
      && r.response.code == 201 && r.response.data.SkillRow?
      && r.response.data.skill.name == name
      && r.store == st.(skills := st.skills + [r.response.data.skill])
      && forall k :: 0 <= k < |st.skills| ==> st.skills[k].id != r.response.data.skill.id && st.skills[k].name != name
  {
    if |errors| > 0 then
      Handled(ValidationFailure(errors), st)
    else if FindFirst(st.skills, SkillNamed(name)).Some? then
      Handled(Failed(409, MsgDuplicate), st)
    else
      var newSkill := Skill(FreshId(SkillIds(st.skills)), name);
      Handled(Success(201, SkillRow(newSkill)), st.(skills := st.skills + [newSkill]))
  }

  /** A created skill is in the next listing. */
  lemma CreatedSkillListed(st: Store, errors: seq<string>, name: string)
    requires PostSkill(st, errors, name).response.Success?
    ensures var r := PostSkill(st, errors, name);
      r.response.data.skill in GetSkills(r.store).response.data.skills
  {
    var r := PostSkill(st, errors, name);
    assert r.store.skills[|st.skills|] == r.response.data.skill;
    assert r.response.data.skill in multiset(r.store.skills);
  }

  /** A create, successful or not, keeps skill names and keys unique. */
  lemma PostSkillKeepsUnique(st: Store, errors: seq<string>, name: string)
    requires Distinct(SkillNames(st.skills)) && Distinct(SkillIds(st.skills))
    ensures var after := PostSkill(st, errors, name).store;
      Distinct(SkillNames(after.skills)) && Distinct(SkillIds(after.skills))
  {
    var r := PostSkill(st, errors, name);
    if r.response.Success? {
      var ss := r.store.skills;
      forall i, j | 0 <= i < j < |ss| ensures SkillNames(ss)[i] != SkillNames(ss)[j] && SkillIds(ss)[i] != SkillIds(ss)[j] {
        if j < |st.skills| {
          assert SkillNames(ss)[i] == SkillNames(st.skills)[i] && SkillNames(ss)[j] == SkillNames(st.skills)[j];
          assert SkillIds(ss)[i] == SkillIds(st.skills)[i] && SkillIds(ss)[j] == SkillIds(st.skills)[j];
        }
      }
    }
  }

  /** Both a blank id and an unknown id are answered with the same 400 "ID錯誤". */
  function DeleteSkill(st: Store, skillId: string): (r: Handled)
    ensures !r.response.Fault?
    ensures r.response.Failed? ==> r.store == st && r.response == Failed(400, MsgIdError)
    ensures r.response.Failed? <==>
      !NonBlankString(Str(skillId)) || forall k :: 0 <= k < |st.skills| ==> st.skills[k].id != skillId
    ensures r.response.Success? ==>
      && r.response == Success(200, NullData)
      && r.store == st.(skills := r.store.skills)
      && |r.store.skills| == |st.skills| - CountWhere(st.skills, SkillWithId(skillId))
      && (forall i :: 0 <= i < |r.store.skills| ==> r.store.skills[i] in st.skills && r.store.skills[i].id != skillId)
      && (forall i :: 0 <= i < |st.skills| && st.skills[i].id != skillId ==> st.skills[i] in r.store.skills)
  {
    if IsInvalidString(Str(skillId)) then
      Handled(Failed(400, MsgIdError), st)
    else
      var result := DeleteWhere(st.skills, SkillWithId(skillId));
      if result.1 == 0 then
        Handled(Failed(400, MsgIdError), st)
      else
        Handled(Success(200, NullData), st.(skills := result.0))
  }

  /**
    Nothing stops the removal of a skill a course still uses (no cascade and no
    reference check is modelled): afterwards the public course list fails,
    because that course's skill join comes back empty.
   */
  lemma DeletingUsedSkillBreaksCourseList(st: Store, skillId: string, k: nat)
    requires k < |st.courses| && st.courses[k].skillId == skillId
    requires DeleteSkill(st, skillId).response.Success?
    ensures GetCourses(DeleteSkill(st, skillId).store).response.Fault?
  {
    var after := DeleteSkill(st, skillId).store;
    assert after.courses[k].skillId == skillId;
    assert MissingJoin(after.courses[k], after.users, after.skills);
  }
}
