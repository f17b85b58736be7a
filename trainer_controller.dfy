/** The trainer controller's guard clauses (backend/controllers/trainerController.js):
    course creation is admitted only for a trainer whose profile exists and is verified, and a
    profile update turns every falsy field into SQL NULL. Skill creation is in SkillRegistry. */
module TrainerController {
  import opened JsValues
  import opened Wrappers
  import opened Http

  /** A row of `trainer_profile` (`trainer_id`, `user_id`, `is_verified`, which may be NULL). */
  datatype TrainerRow = TrainerRow(trainerId: nat, userId: nat, isVerified: JsValue)

  /** `SELECT ... FROM trainer_profile WHERE user_id = $1`, first row. */
  function TrainerOf(trainers: seq<TrainerRow>, userId: nat): (r: Option<TrainerRow>)
    ensures r.Some? ==> r.value in trainers && r.value.userId == userId
    ensures r.None? <==> forall k :: 0 <= k < |trainers| ==> trainers[k].userId != userId
  {
    if trainers == [] then None
    else if trainers[0].userId == userId then Some(trainers[0])
    else
      var r := TrainerOf(trainers[1..], userId);
      assert forall k :: 1 <= k < |trainers| ==> trainers[k] == trainers[1..][k - 1];
      r
  }

  /** The arguments of `CALL sp_add_course` (`prereq_ids` is read from the body but not passed). */
  datatype AddCourseArgs = AddCourseArgs(
    trainerId: nat, title: JsValue, description: JsValue, durationDays: JsValue,
    mode: JsValue, fee: JsValue, skillIds: JsValue)

  const TrainerNotFound := "Trainer profile not found"
  const PendingVerification :=
    "Your account is pending admin verification. You cannot create courses yet."

  /** `addCourse`: 404 without a trainer profile, 403 while the trainer is not verified, and
      otherwise the procedure call with the trainer's own id and the body's fields. */
  function AddCourse(trainers: seq<TrainerRow>, userId: nat, body: Body): (d: Decision<AddCourseArgs>)
    ensures d.Ok? ==> exists row :: row in trainers && row.userId == userId
                                    && Truthy(row.isVerified) && d.args.trainerId == row.trainerId
    ensures d.Ok? ==> d.args.skillIds == Get(body, "skill_ids") && d.args.title == Get(body, "title")
    ensures d.Ok? ==> d.args.description == Get(body, "description") && d.args.durationDays == Get(body, "duration_days")
                      && d.args.mode == Get(body, "mode") && d.args.fee == Get(body, "fee")
    ensures d == Err(NotFound, TrainerNotFound) <==>
              forall k :: 0 <= k < |trainers| ==> trainers[k].userId != userId
    ensures d.Err? && d.status == Forbidden ==> d.message == PendingVerification
  {
    match TrainerOf(trainers, userId)
    case None => Err(NotFound, TrainerNotFound)
    case Some(row) =>
      if !Truthy(row.isVerified) then Err(Forbidden, PendingVerification)
      else
        Ok(AddCourseArgs(row.trainerId, Get(body, "title"), Get(body, "description"),
                         Get(body, "duration_days"), Get(body, "mode"), Get(body, "fee"),
                         Get(body, "skill_ids")))
  }

  /** `user_id` identifies at most one trainer profile. */
  predicate OneProfilePerUser(trainers: seq<TrainerRow>) {
    forall j, k :: 0 <= j < k < |trainers| ==> trainers[j].userId != trainers[k].userId
  }

  /** With one profile per user, a course is admitted exactly when the user's profile exists
      and is verified. */
  lemma AddCourseAdmission(trainers: seq<TrainerRow>, userId: nat, body: Body)
    requires OneProfilePerUser(trainers)
    ensures AddCourse(trainers, userId, body).Ok? <==>
              exists k :: 0 <= k < |trainers| && trainers[k].userId == userId
                          && Truthy(trainers[k].isVerified)
  {
    var r := TrainerOf(trainers, userId);
    if r.Some? {
      var j :| 0 <= j < |trainers| && trainers[j] == r.value;
      assert forall k :: 0 <= k < |trainers| && trainers[k].userId == userId ==> k == j;
    }
  }

  /** An unverified trainer never reaches `sp_add_course`, whatever the request says. */
  lemma UnverifiedTrainerCannotCreateCourses(trainers: seq<TrainerRow>, userId: nat, body: Body)
    requires forall k :: 0 <= k < |trainers| && trainers[k].userId == userId
                ==> !Truthy(trainers[k].isVerified)
    ensures AddCourse(trainers, userId, body).Err?
    ensures AddCourse(trainers, userId, body).status in {NotFound, Forbidden}
  {
  }

  /** The arguments of `CALL sp_update_trainer_profile`. */
  datatype ProfileUpdate = ProfileUpdate(
    userId: nat, organizationName: JsValue, specialization: JsValue, contactNumber: JsValue)

  /** `passed` is what `given || null` sends: the value itself when truthy, NULL otherwise. */
  predicate Coalesced(passed: JsValue, given: JsValue) {
    (Truthy(given) ==> passed == given) && (!Truthy(given) ==> passed == Null)
  }

  /** `updateProfile`: each field is passed as `field || null`. */
  function UpdateProfile(userId: nat, body: Body): (u: ProfileUpdate)
    ensures u.userId == userId
    ensures Coalesced(u.organizationName, Get(body, "organization_name"))
    ensures Coalesced(u.specialization, Get(body, "specialization"))
    ensures Coalesced(u.contactNumber, Get(body, "contact_number"))
  {
    ProfileUpdate(userId, OrNull(Get(body, "organization_name")),
                  OrNull(Get(body, "specialization")), OrNull(Get(body, "contact_number")))
  }
}
