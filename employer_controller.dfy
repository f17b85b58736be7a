/** The employer controller's gates (backend/controllers/employerController.js): the employer
    behind a user, the 404 of `postJob` without one and its array defaults, and the ownership
    checks in front of the application list and the CV download. Query results are inputs. */
module EmployerController {
  import opened JsValues
  import opened Wrappers
  import opened Http

  /** A row of `employer` (`employer_id`, `user_id`). */
  datatype EmployerRow = EmployerRow(employerId: nat, userId: nat)

  /** A row of `job` (`job_id`, `employer_id`). */
  datatype JobRow = JobRow(jobId: nat, employerId: nat)

  /** A row of `application` (`application_id`, `job_id`, `cv_file`). A stored file is a
      Buffer, which is truthy even when it is empty; a missing one is NULL. */
  datatype ApplicationRow = ApplicationRow(applicationId: nat, jobId: nat, cvFile: Option<seq<bv8>>)

  /** `getEmployerId(userId)`: the `employer_id` of the first row for the user, or null. */
  function GetEmployerId(employers: seq<EmployerRow>, userId: nat): (r: Option<nat>)
    ensures r.None? <==> forall k :: 0 <= k < |employers| ==> employers[k].userId != userId
    ensures r.Some? ==> exists k :: 0 <= k < |employers| && employers[k] == EmployerRow(r.value, userId)
  {
    if employers == [] then None
    else if employers[0].userId == userId then Some(employers[0].employerId)
    else
      var r := GetEmployerId(employers[1..], userId);
      assert forall k :: 1 <= k < |employers| ==> employers[k] == employers[1..][k - 1];
      r
  }

  const EmployerNotFound := "Employer not found"
  const NotAuthorized := "Not authorized"
  const CvNotFound := "CV not found"

  /** The arguments of `CALL sp_post_job`. */
  datatype PostJobArgs = PostJobArgs(
    employerId: nat, title: JsValue, description: JsValue, location: JsValue,
    salaryRange: JsValue, expiresAt: JsValue,
    skillIds: JsValue, minProficiencies: JsValue, questions: JsValue)

  /** `list || []`. */
  function OrEmptyList(v: JsValue): (r: JsValue)
    ensures Truthy(v) ==> r == v
    ensures !Truthy(v) ==> r == Arr([])
  {
    Or(v, Arr([]))
  }

  /** `postJob`: 404 when `!employerId` (no employer; id 0 would be refused too), otherwise
      the procedure call with the three lists defaulted to `[]`. */
  function PostJob(employers: seq<EmployerRow>, userId: nat, body: Body): (d: Decision<PostJobArgs>)
    ensures (forall k :: 0 <= k < |employers| ==> employers[k].userId != userId) ==>
              d == Err(NotFound, EmployerNotFound)
    ensures d.Err? ==> d == Err(NotFound, EmployerNotFound)
    ensures d.Ok? ==> d.args.employerId != 0
                      && exists k :: 0 <= k < |employers| && employers[k] == EmployerRow(d.args.employerId, userId)
    ensures d.Ok? ==> && d.args.skillIds == OrEmptyList(Get(body, "skill_ids"))
                      && d.args.minProficiencies == OrEmptyList(Get(body, "min_proficiencies"))
                      && d.args.questions == OrEmptyList(Get(body, "questions"))
                      && d.args.title == Get(body, "title")
    ensures d.Ok? <==> GetEmployerId(employers, userId).Some? && GetEmployerId(employers, userId).value != 0
    ensures d.Ok? ==> && d.args.description == Get(body, "description")
                      && d.args.location == Get(body, "location")
                      && d.args.salaryRange == Get(body, "salary_range")
                      && d.args.expiresAt == Get(body, "expires_at")
  {
    var employerId := GetEmployerId(employers, userId);
    if employerId.None? || employerId.value == 0 then Err(NotFound, EmployerNotFound)
    else
      Ok(PostJobArgs(employerId.value, Get(body, "title"), Get(body, "description"),
                     Get(body, "location"), Get(body, "salary_range"), Get(body, "expires_at"),
                     OrEmptyList(Get(body, "skill_ids")), OrEmptyList(Get(body, "min_proficiencies")),
                     OrEmptyList(Get(body, "questions"))))
  }

  /** The three lists the procedure receives are always arrays when the body sends arrays or
      nothing at all. */
  lemma PostJobListsAreArrays(employers: seq<EmployerRow>, userId: nat, body: Body)
    requires PostJob(employers, userId, body).Ok?
    requires forall key :: key in body && key in {"skill_ids", "min_proficiencies", "questions"} ==>
               body[key].Arr? || !Truthy(body[key])
    ensures var a := PostJob(employers, userId, body).args;
            a.skillIds.Arr? && a.minProficiencies.Arr? && a.questions.Arr?
  {
  }

  /** `SELECT 1 FROM job WHERE job_id = $1 AND employer_id = $2`; a NULL employer id
      matches nothing. */
  predicate OwnsJob(jobs: seq<JobRow>, jobId: nat, employerId: Option<nat>) {
    employerId.Some? && exists k :: 0 <= k < |jobs| && jobs[k] == JobRow(jobId, employerId.value)
  }

  /** `getJobApplications`: 403 unless the job belongs to the user's employer; the result is
      the job whose applications are then read. */
  function GetJobApplications(employers: seq<EmployerRow>, jobs: seq<JobRow>, userId: nat, jobId: nat)
    : (d: Decision<nat>)
    ensures d.Ok? ==> d.args == jobId
    ensures d.Err? ==> d == Err(Forbidden, NotAuthorized)
    ensures d.Ok? ==> exists e, j :: && 0 <= e < |employers| && employers[e].userId == userId
                                   && 0 <= j < |jobs| && jobs[j] == JobRow(jobId, employers[e].employerId)
    ensures d.Ok? <==> GetEmployerId(employers, userId).Some?
                       && exists j :: 0 <= j < |jobs| && jobs[j] == JobRow(jobId, GetEmployerId(employers, userId).value)
  {
    if !OwnsJob(jobs, jobId, GetEmployerId(employers, userId)) then Err(Forbidden, NotAuthorized)
    else Ok(jobId)
  }

  /** A user with no employer profile never sees applications. */
  lemma NoEmployerNoApplications(employers: seq<EmployerRow>, jobs: seq<JobRow>, userId: nat, jobId: nat)
    requires forall k :: 0 <= k < |employers| ==> employers[k].userId != userId
    ensures GetJobApplications(employers, jobs, userId, jobId) == Err(Forbidden, NotAuthorized)
  {
  }

  /** The authorisation query of `getApplicationCV`: the application is on a job of the
      employer. */
  predicate OwnsApplication(applications: seq<ApplicationRow>, jobs: seq<JobRow>,
                            applicationId: nat, employerId: Option<nat>)
  {
    exists a :: 0 <= a < |applications| && applications[a].applicationId == applicationId
                && OwnsJob(jobs, applications[a].jobId, employerId)
  }

  /** `SELECT cv_file FROM application WHERE application_id = $1`, first row. */
  function CvOf(applications: seq<ApplicationRow>, applicationId: nat): (r: Option<Option<seq<bv8>>>)
    ensures r.None? <==> forall k :: 0 <= k < |applications| ==> applications[k].applicationId != applicationId
    ensures r.Some? ==> exists k :: 0 <= k < |applications| && applications[k].applicationId == applicationId
                                    && applications[k].cvFile == r.value
  {
    if applications == [] then None
    else if applications[0].applicationId == applicationId then Some(applications[0].cvFile)
    else
      var r := CvOf(applications[1..], applicationId);
      assert forall k :: 1 <= k < |applications| ==> applications[k] == applications[1..][k - 1];
      r
  }

  /** `getApplicationCV`: 403 first, then 404 when there is no row or no file, otherwise the
      file's bytes. */
  function GetApplicationCV(employers: seq<EmployerRow>, jobs: seq<JobRow>,
                            applications: seq<ApplicationRow>, userId: nat, applicationId: nat)
    : (d: Decision<seq<bv8>>)
    ensures !OwnsApplication(applications, jobs, applicationId, GetEmployerId(employers, userId)) ==>
              d == Err(Forbidden, NotAuthorized)
    ensures d.Ok? ==> exists k :: 0 <= k < |applications| && applications[k].applicationId == applicationId
                                  && applications[k].cvFile == Some(d.args)
    ensures d.Err? ==> d == Err(Forbidden, NotAuthorized) || d == Err(NotFound, CvNotFound)
  {
    if !OwnsApplication(applications, jobs, applicationId, GetEmployerId(employers, userId)) then
      Err(Forbidden, NotAuthorized)
    else
      match CvOf(applications, applicationId)
      case None => Err(NotFound, CvNotFound)
      case Some(None) => Err(NotFound, CvNotFound)
      case Some(Some(bytes)) => Ok(bytes)
  }

  /** With one row per application, an authorised request gets 404 exactly when that row has
      no file, and otherwise that very file. */
  lemma AuthorisedCvRequest(employers: seq<EmployerRow>, jobs: seq<JobRow>,
                            applications: seq<ApplicationRow>, userId: nat, a: nat)
    requires a < |applications|
    requires forall k :: 0 <= k < |applications| && k != a ==>
               applications[k].applicationId != applications[a].applicationId
    requires OwnsJob(jobs, applications[a].jobId, GetEmployerId(employers, userId))
    ensures var d := GetApplicationCV(employers, jobs, applications, userId, applications[a].applicationId);
            && (applications[a].cvFile.None? <==> d == Err(NotFound, CvNotFound))
            && (applications[a].cvFile.Some? ==> d == Ok(applications[a].cvFile.value))
  {
    var id := applications[a].applicationId;
    assert OwnsApplication(applications, jobs, id, GetEmployerId(employers, userId));
    var r := CvOf(applications, id);
    var k :| 0 <= k < |applications| && applications[k].applicationId == id && applications[k].cvFile == r.value;
    assert k == a;
  }
}
