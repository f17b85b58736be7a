/** The candidate controller's `addSkill` (backend/controllers/candidateController.js): the
    request is rejected without a proficiency or with a years figure outside [0, 50], and
    otherwise `sp_add_candidate_skill` is called with defaulted arguments. */
module CandidateController {
  import opened JsValues
  import opened Http

  /** The arguments of `CALL sp_add_candidate_skill($1, $2, $3, $4, $5)`. */
  datatype SkillArgs = SkillArgs(
    candidateId: nat, skillId: JsValue, proficiency: JsValue, yearsExperience: JsValue,
    customName: JsValue)

  const ProficiencyRequired := "Proficiency is required"
  const InvalidYears := "Invalid years of experience"

  /** A truthy years figure that compares below 0 or above 50 is refused. */
  predicate YearsOutOfRange(years: JsValue) {
    Truthy(years) && (LessThan(years, 0) || GreaterThan(years, 50))
  }

  /** `addSkill`: the two checks in order, then the procedure call. A refusal carries no
      arguments, so no procedure is called on either rejection path. */
  function AddSkill(candidateId: nat, body: Body): (d: Decision<SkillArgs>)
    ensures Get(body, "proficiency").Undefined? ==> d == Err(BadRequest, ProficiencyRequired)
    ensures !Get(body, "proficiency").Undefined? && YearsOutOfRange(Get(body, "years_experience")) ==>
              d == Err(BadRequest, InvalidYears)
    ensures !Get(body, "proficiency").Undefined? && !YearsOutOfRange(Get(body, "years_experience")) ==> d.Ok?
    ensures d.Err? ==> d.status == BadRequest
    ensures d.Ok? ==> && d.args.candidateId == candidateId
                      && d.args.proficiency == Get(body, "proficiency")
                      && d.args.skillId == Or(Get(body, "skill_id"), Num(0))
                      && d.args.yearsExperience == Or(Get(body, "years_experience"), Num(0))
                      && d.args.customName == OrNull(Get(body, "custom_name"))
  {
    var proficiency := Get(body, "proficiency");
    var years := Get(body, "years_experience");
    if proficiency.Undefined? then Err(BadRequest, ProficiencyRequired)
    else if YearsOutOfRange(years) then Err(BadRequest, InvalidYears)
    else
      Ok(SkillArgs(candidateId, Or(Get(body, "skill_id"), Num(0)), proficiency,
                   Or(years, Num(0)), OrNull(Get(body, "custom_name"))))
  }

  /** A body with a proficiency and an integer years figure is accepted exactly when the
      figure lies in [0, 50]; an absent figure is accepted and sent as 0. */
  lemma YearsBounds(candidateId: nat, body: Body)
    requires !Get(body, "proficiency").Undefined?
    ensures Get(body, "years_experience").Num? ==>
              (AddSkill(candidateId, body).Ok? <==> 0 <= Get(body, "years_experience").n <= 50)
    ensures "years_experience" !in body ==>
              AddSkill(candidateId, body).Ok? && AddSkill(candidateId, body).args.yearsExperience == Num(0)
  {
  }

  /** An object as the years figure is truthy but compares as NaN, so it passes both bounds
      and reaches the procedure unchanged. */
  lemma ObjectYearsPassed(candidateId: nat, body: Body)
    requires !Get(body, "proficiency").Undefined? && Get(body, "years_experience") == Obj
    ensures AddSkill(candidateId, body).Ok? && AddSkill(candidateId, body).args.yearsExperience == Obj
  {
  }

  /** Whatever was sent, the years figure passed to the procedure never reads as a number
      outside [0, 50]. */
  lemma AcceptedYearsInRange(candidateId: nat, body: Body)
    requires AddSkill(candidateId, body).Ok?
    ensures var y := ToNumber(AddSkill(candidateId, body).args.yearsExperience);
            y.NaN? || 0 <= y.n <= 50
  {
    var years := Get(body, "years_experience");
    if Truthy(years) {
      assert !LessThan(years, 0) && !GreaterThan(years, 50);
    }
  }
}
